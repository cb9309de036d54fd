/**
  The modal editor (`fs/ed.c`) as a value: lines, cursor, mode and flags, and
  what every key does to them and to the volume it saves on.

  `Editor.dfy` proves that the row-buffer code follows these definitions. Here
  we prove that the row operations are splices of one flat text, what every key
  sequence keeps, and that saving and reopening loses nothing that fits.
 */
module EditorModel {
  import opened Bytes
  import opened Common
  import F = EasyFsModel

  type Line = seq<byte>

  datatype Mode = Normal | Insert | Command

  datatype Ed = Ed(
    lines: seq<Line>, cx: nat, cy: nat, mode: Mode, dirty: int,
    cmd: seq<byte>, yank: Line, filename: F.Name)

  // Key codes below 128; the arrows are in `Common`.
  const ESC: int := 27
  const NEWLINE: int := 10
  const BACKSPACE: int := 8
  const RUBOUT: int := 127

  const NL: byte := 10
  const QUIT: int := -9999
  const MAX_TEXT: nat := F.BLOCK_SIZE - 1
  const MAX_COMMAND: nat := 78

  predicate Printable(c: int) {
    32 <= c < 127
  }

  function Initial(yank: Line): Ed {
    Ed([], 0, 0, Normal, 0, [], yank, [])
  }

  // ------------------------------------------------------------- row edits

  function RowsInsert(lines: seq<Line>, at: nat, s: Line): seq<Line> {
    if at > |lines| then lines else lines[..at] + [s] + lines[at..]
  }

  lemma RowsInsertAt(lines: seq<Line>, at: nat, s: Line, i: nat)
    requires at <= |lines| && i <= |lines|
    ensures |RowsInsert(lines, at, s)| == |lines| + 1
    ensures RowsInsert(lines, at, s)[i] == if i < at then lines[i] else if i == at then s else lines[i - 1]
  {}

  function RowsDelete(lines: seq<Line>, at: nat): seq<Line>
    requires at < |lines|
  {
    lines[..at] + lines[at + 1..]
  }

  function LineInsert(s: Line, at: nat, c: byte): Line
    requires at <= |s|
  {
    s[..at] + [c] + s[at..]
  }

  function LineDelete(s: Line, at: nat): Line
    requires at < |s|
  {
    s[..at] + s[at + 1..]
  }

  // ------------------------------------------------------- cursor position

  /** The cursor is on a line, or at column 0 of the place after the last line. */
  predicate OnText(e: Ed) {
    e.cy <= |e.lines| && e.cx <= if e.cy < |e.lines| then |e.lines[e.cy]| else 0
  }

  function InsertRow(e: Ed, at: nat, s: Line): Ed {
    e.(lines := RowsInsert(e.lines, at, s))
  }

  function DelRow(e: Ed, at: nat): Ed {
    if at >= |e.lines| then e else e.(lines := RowsDelete(e.lines, at), dirty := 1)
  }

  function InsertChar(e: Ed, c: byte): Ed
    requires OnText(e)
  {
    var d := if e.cy == |e.lines| then InsertRow(e, |e.lines|, []) else e;
    d.(lines := d.lines[d.cy := LineInsert(d.lines[d.cy], d.cx, c)], cx := d.cx + 1, dirty := 1)
  }

  function InsertNewline(e: Ed): Ed
    requires OnText(e)
  {
    var d := if e.cx == 0 then InsertRow(e, e.cy, [])
             else
               var s := e.lines[e.cy];
               var f := InsertRow(e, e.cy + 1, s[e.cx..]);
               f.(lines := f.lines[e.cy := s[..e.cx]]);
    d.(cy := d.cy + 1, cx := 0)
  }

  function DelChar(e: Ed): Ed
    requires OnText(e)
  {
    if e.cy == |e.lines| || (e.cx == 0 && e.cy == 0) then e
    else if e.cx > 0 then
      e.(lines := e.lines[e.cy := LineDelete(e.lines[e.cy], e.cx - 1)], cx := e.cx - 1, dirty := 1)
    else
      var above := e.lines[e.cy - 1];
      var joined := e.(lines := e.lines[e.cy - 1 := above + e.lines[e.cy]], cx := |above|);
      DelRow(joined, e.cy).(cy := e.cy - 1, dirty := 1)
  }

  function YankLine(e: Ed): Ed {
    if e.cy >= |e.lines| then e
    else var s := e.lines[e.cy]; e.(yank := if |s| < MAX_TEXT then s else s[..MAX_TEXT])
  }

  function PasteLine(e: Ed): Ed {
    if e.yank == [] then e else InsertRow(e, e.cy + 1, e.yank).(cy := e.cy + 1, cx := 0)
  }

  function DeleteLine(e: Ed): Ed {
    if e.lines == [] then e
    else
      var d := DelRow(YankLine(e), e.cy);
      d.(cy := if d.cy >= |d.lines| && d.cy > 0 then d.cy - 1 else d.cy, cx := 0)
  }

  function MoveCursor(e: Ed, key: int): Ed
    requires OnText(e)
  {
    var d :=
      if key == 'h' as int || key == ARROW_LEFT then
        if e.cx > 0 then e.(cx := e.cx - 1)
        else if e.cy > 0 then e.(cy := e.cy - 1, cx := |e.lines[e.cy - 1]|)
        else e
      else if key == 'l' as int || key == ARROW_RIGHT then
        if e.cy < |e.lines| && e.cx < |e.lines[e.cy]| then e.(cx := e.cx + 1) else e
      else if key == 'k' as int || key == ARROW_UP then
        if e.cy > 0 then e.(cy := e.cy - 1) else e
      else if key == 'j' as int || key == ARROW_DOWN then
        if e.cy < |e.lines| - 1 then e.(cy := e.cy + 1) else e
      else e;
    var rowLen := if d.cy < |d.lines| then |d.lines[d.cy]| else 0;
    if d.cx > rowLen then d.(cx := rowLen) else d
  }

  // -------------------------------------------------------- text and saving

  /** Every line followed by a newline. */
  function Text(lines: seq<Line>): seq<byte> {
    if lines == [] then [] else lines[0] + [NL] + Text(lines[1..])
  }

  /** The cursor as a position in the text. */
  function Offset(e: Ed): nat
    requires e.cy <= |e.lines|
  {
    |Text(e.lines[..e.cy])| + e.cx
  }

  /** What a save keeps of a text. */
  function Bounded(t: seq<byte>): (r: seq<byte>)
    ensures |r| == (if |t| <= 4095 then |t| else 4095) && r == t[..|r|]
  {
    if |t| <= MAX_TEXT then t else t[..MAX_TEXT]
  }

  /** `editorSave` succeeds exactly then: a file of this name exists or can be created. */
  ghost predicate CanSave(v: F.Volume, name: F.Name) {
    name != []
    && (F.Find(v.dir, name).Some? || (|name| < F.MAX_FILENAME_LEN && |F.UsedSlots(v.dir)| < F.MAX_DIR_ENTRIES))
  }

  /** A block-sized buffer with `text` at its front. */
  ghost predicate Holds(buf: seq<byte>, text: seq<byte>) {
    |buf| == F.BLOCK_SIZE && |text| <= MAX_TEXT && buf[..|text|] == text
  }

  /** The volume once the file has been created if it was missing. */
  ghost function Ensured(v: F.Volume, name: F.Name): F.Volume {
    if F.Find(v.dir, name).Some? then v else F.Create(v, name).0
  }

  lemma EnsuredFound(v: F.Volume, name: F.Name)
    requires F.Valid(v) && name != []
    ensures F.Valid(Ensured(v, name)) && (F.Find(Ensured(v, name).dir, name).Some? <==> CanSave(v, name))
  {
    if F.Find(v.dir, name).None? { CreatedFound(v, name); }
  }

  lemma CreatedFound(v: F.Volume, name: F.Name)
    requires F.Valid(v) && F.Find(v.dir, name).None?
    ensures F.Valid(F.Create(v, name).0)
    ensures F.Find(F.Create(v, name).0.dir, name).Some? <==>
              |name| < F.MAX_FILENAME_LEN && |F.UsedSlots(v.dir)| < F.MAX_DIR_ENTRIES
  {
    F.CreateKeeps(v, name);
    F.SlotCount(v.dir);
    var w := F.Create(v, name).0;
    var i := F.FreeSlot(v.dir, 0);
    hide F.Valid, F.Find, F.UsedSlots;
    if F.Create(v, name).1 == 0 {
      assert F.Matches(w.dir[i.value], name) <==> |name| < F.MAX_FILENAME_LEN;
      assert forall j :: 0 <= j < |v.dir| && j != i.value ==> w.dir[j] == v.dir[j];
    }
  }

  /** The volume after saving `n` bytes of `buf`: the file is created if missing, then written. */
  ghost function SaveTo(v: F.Volume, name: F.Name, buf: seq<byte>, n: nat): F.Volume
    requires F.Valid(v) && |buf| == F.BLOCK_SIZE && n <= MAX_TEXT
  {
    if name == [] then v
    else
      EnsuredFound(v, name);
      F.Write(Ensured(v, name), name, buf, n).0
  }

  predicate EndsLine(b: byte) {
    b == NL || b == 0
  }

  /** The pieces between line ends, the last one being what follows the last line end. */
  function Split(s: seq<byte>): (r: seq<Line>)
    ensures r != []
  {
    if s == [] then [[]]
    else
      var p, c := Split(s[..|s| - 1]), s[|s| - 1];
      if EndsLine(c) then p + [[]] else p[|p| - 1 := p[|p| - 1] + [c]]
  }

  /** The lines `editorOpen` finds under a name. */
  ghost function OpenLines(v: F.Volume, name: F.Name): seq<Line>
    requires F.Valid(v)
  {
    var r := F.Find(v.dir, name);
    if r.None? || v.dir[r.value].size == 0 then []
    else
      assert F.UsedSlot(v.dir, r.value);
      Split(F.Stretch(v.data, v.dir[r.value].first,
                      if v.dir[r.value].size <= MAX_TEXT then v.dir[r.value].size else MAX_TEXT))
  }

  // ------------------------------------------------- flat text: the splices

  /** `t` with the bytes `a..b` replaced by `ins`. */
  function Splice(t: seq<byte>, a: nat, b: nat, ins: seq<byte>): seq<byte>
    requires a <= b <= |t|
  {
    t[..a] + ins + t[b..]
  }

  lemma {:induction false} TextConcat(a: seq<Line>, b: seq<Line>)
    ensures Text(a + b) == Text(a) + Text(b)
  {
    if a == [] {
      assert a + b == b;
    } else {
      assert (a + b)[1..] == a[1..] + b;
      TextConcat(a[1..], b);
      assert Text(a + b) == a[0] + [NL] + (Text(a[1..]) + Text(b));
    }
  }

  /** The text spelled out: every line and a newline. */
  lemma TextIs(lines: seq<Line>, s: Line)
    ensures Text([]) == [] && Text(lines + [s]) == Text(lines) + s + [10]
  {
    TextConcat(lines, [s]);
    TextOfOne(s);
  }

  lemma TextOfOne(s: Line)
    ensures Text([s]) == s + [NL]
  {
    assert [s][1..] == [];
  }

  lemma Around<T>(s: seq<T>, i: nat)
    requires i < |s|
    ensures s[..i + 1] == s[..i] + [s[i]] && s == s[..i] + [s[i]] + s[i + 1..]
  {}

  /** The text around line `i`. */
  lemma TextAround(lines: seq<Line>, i: nat)
    requires i < |lines|
    ensures Text(lines) == Text(lines[..i]) + (lines[i] + [NL]) + Text(lines[i + 1..])
    ensures Text(lines[..i + 1]) == Text(lines[..i]) + (lines[i] + [NL])
  {
    hide Text;
    var a, m, b := lines[..i], [lines[i]], lines[i + 1..];
    TextOfOne(lines[i]);
    Around(lines, i);
    TextConcat(a, m);
    TextConcat(a + m, b);
  }

  lemma SpliceParts(t: seq<byte>, a: seq<byte>, m: seq<byte>, b: seq<byte>, n: seq<byte>)
    requires t == a + m + b
    ensures |a| + |m| <= |t| && Splice(t, |a|, |a| + |m|, n) == a + n + b
  {
    assert t[..|a|] == a && t[|a| + |m|..] == b;
  }

  lemma TextThree(a: seq<Line>, m: seq<Line>, b: seq<Line>)
    ensures Text(a + m + b) == Text(a) + Text(m) + Text(b)
  {
    hide Text;
    TextConcat(a + m, b);
    TextConcat(a, m);
  }

  /** Rewriting some lines rewrites just their stretch of the text. */
  lemma TextReplace(a: seq<Line>, was: seq<Line>, now: seq<Line>, b: seq<Line>)
    ensures |Text(a)| + |Text(was)| <= |Text(a + was + b)|
    ensures Text(a + now + b) == Splice(Text(a + was + b), |Text(a)|, |Text(a)| + |Text(was)|, Text(now))
  {
    hide Text, Splice;
    TextThree(a, was, b);
    TextThree(a, now, b);
    SpliceParts(Text(a + was + b), Text(a), Text(was), Text(b), Text(now));
  }

  /** Replacing line `i` by lines that spell out the edited line. */
  lemma TextEditLine(lines: seq<Line>, i: nat, now: seq<Line>, p: nat, q: nat, ins: seq<byte>)
    requires i < |lines| && p <= q <= |lines[i]| && Text(now) == lines[i][..p] + ins + lines[i][q..] + [NL]
    ensures var base := |Text(lines[..i])|;
            base + q <= |Text(lines)|
            && Text(lines[..i] + now + lines[i + 1..]) == Splice(Text(lines), base + p, base + q, ins)
  {
    hide Text, Splice;
    var a, b, s := Text(lines[..i]), Text(lines[i + 1..]), lines[i];
    TextAround(lines, i);
    TextThree(lines[..i], now, lines[i + 1..]);
    var before, after := a + s[..p], s[q..] + [NL] + b;
    assert a + (s + [NL]) + b == before + s[p..q] + after by {
      assert s == s[..p] + s[p..q] + s[q..];
    }
    SpliceParts(Text(lines), before, s[p..q], after, ins);
    assert a + (s[..p] + ins + s[q..] + [NL]) + b == before + ins + after;
  }

  /** Inserting a whole line. */
  lemma TextInsertRow(lines: seq<Line>, at: nat, s: Line)
    requires at <= |lines|
    ensures |Text(lines[..at])| <= |Text(lines)|
    ensures Text(RowsInsert(lines, at, s)) == Splice(Text(lines), |Text(lines[..at])|, |Text(lines[..at])|, s + [NL])
  {
    TextOfOne(s);
    assert lines == lines[..at] + [] + lines[at..];
    TextReplace(lines[..at], [], [s], lines[at..]);
  }

  /** `editorInsertChar` on a line puts one byte in at the cursor and moves past it. */
  lemma InsertCharSplices(e: Ed, c: byte)
    requires OnText(e) && e.cy < |e.lines|
    ensures OnText(InsertChar(e, c)) && Offset(e) <= |Text(e.lines)|
    ensures Text(InsertChar(e, c).lines) == Splice(Text(e.lines), Offset(e), Offset(e), [c])
    ensures Offset(InsertChar(e, c)) == Offset(e) + 1
  {
    hide Text, Splice;
    var s := e.lines[e.cy];
    var t := LineInsert(s, e.cx, c);
    TextOfOne(t);
    TextEditLine(e.lines, e.cy, [t], e.cx, e.cx, [c]);
    var d := InsertChar(e, c);
    assert d.lines == e.lines[..e.cy] + [t] + e.lines[e.cy + 1..];
    assert d.lines[..e.cy] == e.lines[..e.cy];
  }

  /** Past the last line it appends the character and a newline. */
  lemma InsertCharAppends(e: Ed, c: byte)
    requires OnText(e) && e.cy == |e.lines|
    ensures OnText(InsertChar(e, c)) && Offset(e) == |Text(e.lines)|
    ensures Text(InsertChar(e, c).lines) == Text(e.lines) + [c, NL]
    ensures Offset(InsertChar(e, c)) == Offset(e) + 1
  {
    var d := InsertChar(e, c);
    assert LineInsert([], 0, c) == [c] && e.lines[..|e.lines|] == e.lines && e.lines[|e.lines|..] == [];
    assert d.lines == e.lines + [[c]];
    TextConcat(e.lines, [[c]]);
    TextOfOne([c]);
    assert d.lines[..e.cy] == e.lines && e.lines[..e.cy] == e.lines;
  }

  /** `editorInsertNewline` puts a newline in at the cursor and moves past it, wherever the cursor is. */
  lemma InsertNewlineSplices(e: Ed)
    requires OnText(e)
    ensures OnText(InsertNewline(e)) && Offset(e) <= |Text(e.lines)|
    ensures Text(InsertNewline(e).lines) == Splice(Text(e.lines), Offset(e), Offset(e), [NL])
    ensures Offset(InsertNewline(e)) == Offset(e) + 1
  {
    hide Text, Splice;
    var d := InsertNewline(e);
    if e.cx == 0 {
      TextInsertRow(e.lines, e.cy, []);
      assert [] + [NL] == [NL];
      assert d.lines[..d.cy] == e.lines[..e.cy] + [[]];
      TextConcat(e.lines[..e.cy], [[]]);
      TextOfOne([]);
    } else {
      var s := e.lines[e.cy];
      var now := [s[..e.cx], s[e.cx..]];
      assert d.lines == e.lines[..e.cy] + now + e.lines[e.cy + 1..];
      assert now == [now[0]] + [now[1]];
      TextConcat([now[0]], [now[1]]);
      TextOfOne(now[0]);
      TextOfOne(now[1]);
      assert Text(now) == s[..e.cx] + [NL] + s[e.cx..] + [NL];
      TextEditLine(e.lines, e.cy, now, e.cx, e.cx, [NL]);
      assert d.lines[..d.cy] == e.lines[..e.cy] + [now[0]];
      TextConcat(e.lines[..e.cy], [now[0]]);
    }
  }

  /** `editorDelChar` removes the byte before the cursor; at the very start and past the last line it does nothing. */
  lemma DelCharSplices(e: Ed)
    requires OnText(e)
    ensures OnText(DelChar(e))
    ensures e.cy == |e.lines| || (e.cx == 0 && e.cy == 0) ==> DelChar(e) == e
    ensures e.cy < |e.lines| && !(e.cx == 0 && e.cy == 0) ==>
              && 0 < Offset(e) <= |Text(e.lines)|
              && Text(DelChar(e).lines) == Splice(Text(e.lines), Offset(e) - 1, Offset(e), [])
              && Offset(DelChar(e)) == Offset(e) - 1
  {
    if e.cy < |e.lines| && e.cx > 0 {
      var s := e.lines[e.cy];
      var t := LineDelete(s, e.cx - 1);
      TextOfOne(t);
      TextEditLine(e.lines, e.cy, [t], e.cx - 1, e.cx, []);
      var d := DelChar(e);
      assert d.lines == e.lines[..e.cy] + [t] + e.lines[e.cy + 1..];
      assert d.lines[..e.cy] == e.lines[..e.cy];
    } else if e.cy < |e.lines| && e.cy > 0 {
      JoinSplices(e);
    }
  }

  /** The case that joins two lines: the newline between them goes. */
  lemma JoinSplices(e: Ed)
    requires OnText(e) && 0 < e.cy < |e.lines| && e.cx == 0
    ensures OnText(DelChar(e)) && 0 < Offset(e) <= |Text(e.lines)|
    ensures Text(DelChar(e).lines) == Splice(Text(e.lines), Offset(e) - 1, Offset(e), [])
    ensures Offset(DelChar(e)) == Offset(e) - 1
  {
    hide Text, Splice;
    var k := e.cy - 1;
    var p, q, a, b := e.lines[k], e.lines[k + 1], e.lines[..k], e.lines[k + 2..];
    var d := DelChar(e);
    assert e.lines == a + [p, q] + b && d.lines == a + [p + q] + b;
    assert d.lines[..d.cy] == a && e.lines[..e.cy] == a + [p] && [p, q] == [p] + [q];
    TextThree(a, [p, q], b);
    TextThree(a, [p + q], b);
    TextConcat([p], [q]);
    TextConcat(a, [p]);
    TextOfOne(p); TextOfOne(q); TextOfOne(p + q);
    hide DelChar;
    assert Text(e.lines) == (Text(a) + p) + [NL] + (q + [NL] + Text(b));
    assert Text(d.lines) == (Text(a) + p) + [] + (q + [NL] + Text(b));
    SpliceParts(Text(e.lines), Text(a) + p, [NL], q + [NL] + Text(b), []);
  }

  /** `editorDelRow` removes a line with its newline. */
  lemma DelRowSplices(e: Ed, at: nat)
    requires at < |e.lines|
    ensures var from := |Text(e.lines[..at])|; var to := from + |e.lines[at]| + 1;
            to <= |Text(e.lines)| && Text(DelRow(e, at).lines) == Splice(Text(e.lines), from, to, [])
  {
    TextOfOne(e.lines[at]);
    assert e.lines == e.lines[..at] + [e.lines[at]] + e.lines[at + 1..];
    assert RowsDelete(e.lines, at) == e.lines[..at] + [] + e.lines[at + 1..];
    TextReplace(e.lines[..at], [e.lines[at]], [], e.lines[at + 1..]);
  }

  // ------------------------------------------------------- one key pressed

  const CMD_QUIT: seq<byte> := ['q' as byte]
  const CMD_FORCE: seq<byte> := ['q' as byte, '!' as byte]
  const CMD_WRITE: seq<byte> := ['w' as byte]
  const CMD_WRITE_QUIT: seq<byte> := ['w' as byte, 'q' as byte]

  /** The command typed so far ends in a save. */
  predicate Saves(e: Ed, c: int) {
    e.mode == Command && c == NEWLINE && (e.cmd == CMD_WRITE || e.cmd == CMD_WRITE_QUIT)
  }

  predicate Quits(e: Ed, c: int) {
    e.mode == Command && c == NEWLINE
    && (e.cmd == CMD_FORCE || e.cmd == CMD_WRITE_QUIT || (e.cmd == CMD_QUIT && e.dirty <= 0))
  }

  /** One key in NORMAL mode; `next` is the key after it, read only for `d` and `y`. */
  function NormalKey(e: Ed, c: int, next: int): Ed
    requires OnText(e)
  {
    if c == 'h' as int || c == 'j' as int || c == 'k' as int || c == 'l' as int || ARROW_UP <= c <= ARROW_RIGHT then
      MoveCursor(e, c)
    else if c == 'i' as int then e.(mode := Insert)
    else if c == 'a' as int then
      e.(mode := Insert, cx := if e.cy < |e.lines| && e.cx < |e.lines[e.cy]| then e.cx + 1 else e.cx)
    else if c == 'o' as int then
      InsertNewline(e.(cx := if e.cy < |e.lines| then |e.lines[e.cy]| else e.cx)).(mode := Insert)
    else if c == 'O' as int then InsertRow(e.(cx := 0), e.cy, []).(mode := Insert)
    else if c == 'x' as int then
      if e.cy < |e.lines| && e.cx < |e.lines[e.cy]| then
        var s := LineDelete(e.lines[e.cy], e.cx);
        e.(lines := e.lines[e.cy := s], cx := if e.cx >= |s| && e.cx > 0 then e.cx - 1 else e.cx, dirty := 1)
      else e
    else if c == 'd' as int then if next == 'd' as int then DeleteLine(e) else e
    else if c == 'y' as int then if next == 'y' as int then YankLine(e) else e
    else if c == 'p' as int then PasteLine(e)
    else if c == ':' as int then e.(mode := Command, cmd := [])
    else e
  }

  function InsertKey(e: Ed, c: int): Ed
    requires OnText(e)
  {
    if c == ESC then e.(mode := Normal, cx := if e.cx > 0 then e.cx - 1 else 0)
    else if c == NEWLINE then InsertNewline(e).(dirty := 1)
    else if c == BACKSPACE || c == RUBOUT then DelChar(e)
    else if Printable(c) then InsertChar(e, c as byte)
    else e
  }

  /** One key in COMMAND mode; `saved` tells whether a save made now would succeed. */
  function CommandKey(e: Ed, c: int, saved: bool): Ed {
    if c == ESC then e.(mode := Normal, cmd := [])
    else if c == NEWLINE then
      var d := if Saves(e, c) && saved then e.(dirty := 0) else e;
      if Quits(e, c) then d.(dirty := QUIT) else d.(mode := Normal)
    else if c == BACKSPACE || c == RUBOUT then if e.cmd != [] then e.(cmd := e.cmd[..|e.cmd| - 1]) else e
    else if Printable(c) && |e.cmd| < MAX_COMMAND then e.(cmd := e.cmd + [c as byte])
    else e
  }

  function Key(e: Ed, c: int, next: int, saved: bool): Ed
    requires OnText(e)
  {
    match e.mode
    case Insert => InsertKey(e, c)
    case Command => CommandKey(e, c, saved)
    case Normal => NormalKey(e, c, next)
  }

  // ------------------------------------------ what the other keys do to text

  /** Left moves the text position back by one, across line ends, and stops at the start. */
  lemma MoveLeftOffset(e: Ed)
    requires OnText(e)
    ensures var d := MoveCursor(e, 'h' as int);
            d == MoveCursor(e, ARROW_LEFT) && d == e.(cx := d.cx, cy := d.cy) && OnText(d)
            && Offset(d) == if Offset(e) > 0 then Offset(e) - 1 else 0
  {
    if e.cx == 0 && e.cy > 0 {
      TextAround(e.lines, e.cy - 1);
    } else if e.cx == 0 {
      assert e.lines[..0] == [];
    }
  }

  /** Right moves it forward by one, but not past the end of its line. */
  lemma MoveRightOffset(e: Ed)
    requires OnText(e)
    ensures var d := MoveCursor(e, 'l' as int);
            d == MoveCursor(e, ARROW_RIGHT) && d == e.(cx := d.cx) && OnText(d)
            && Offset(d) == Offset(e) + if e.cy < |e.lines| && e.cx < |e.lines[e.cy]| then 1 else 0
  {
    hide Text;
  }

  /** Up and down keep the column where the other line is long enough, and clip it there otherwise. */
  lemma MoveVertical(e: Ed, down: bool)
    requires OnText(e)
    requires if down then e.cy + 1 < |e.lines| else e.cy > 0
    ensures var d := MoveCursor(e, if down then ARROW_DOWN else ARROW_UP);
            d == MoveCursor(e, if down then 'j' as int else 'k' as int)
            && d == e.(cx := d.cx, cy := d.cy) && d.cy == (if down then e.cy + 1 else e.cy - 1)
            && d.cx <= e.cx && d.cx <= |e.lines[d.cy]| && (d.cx == e.cx || d.cx == |e.lines[d.cy]|)
  {}

  /** `x` removes the byte under the cursor. */
  lemma CutSplices(e: Ed)
    requires OnText(e) && e.mode == Normal && e.cy < |e.lines| && e.cx < |e.lines[e.cy]|
    ensures Offset(e) < |Text(e.lines)|
    ensures Text(NormalKey(e, 'x' as int, 0).lines) == Splice(Text(e.lines), Offset(e), Offset(e) + 1, [])
  {
    hide Text, Splice;
    var t := LineDelete(e.lines[e.cy], e.cx);
    TextOfOne(t);
    TextEditLine(e.lines, e.cy, [t], e.cx, e.cx + 1, []);
    assert NormalKey(e, 'x' as int, 0).lines == e.lines[..e.cy] + [t] + e.lines[e.cy + 1..];
  }

  /** `dd` takes the line out of the text and into the yank buffer. */
  lemma DeleteLineSplices(e: Ed)
    requires OnText(e) && e.cy < |e.lines|
    ensures var from := |Text(e.lines[..e.cy])|; var to := from + |e.lines[e.cy]| + 1; var d := DeleteLine(e);
            && to <= |Text(e.lines)| && Text(d.lines) == Splice(Text(e.lines), from, to, [])
            && (|e.lines[e.cy]| <= MAX_TEXT ==> d.yank == e.lines[e.cy]) && d.yank <= e.lines[e.cy]
  {
    hide Text, Splice;
    DelRowSplices(e, e.cy);
    assert e.lines[e.cy][..|e.lines[e.cy]|] == e.lines[e.cy];
  }

  /** `p` puts the yanked line in below the cursor's line. */
  lemma PasteSplices(e: Ed)
    requires OnText(e) && e.cy < |e.lines| && e.yank != []
    ensures var at := |Text(e.lines[..e.cy + 1])|; var d := PasteLine(e);
            at <= |Text(e.lines)| && Text(d.lines) == Splice(Text(e.lines), at, at, e.yank + [NL])
            && d.cy < |d.lines| && d.lines[d.cy] == e.yank && Offset(d) == at
  {
    hide Text, Splice;
    TextInsertRow(e.lines, e.cy + 1, e.yank);
    RowsInsertAt(e.lines, e.cy + 1, e.yank, e.cy + 1);
    assert PasteLine(e).lines[..e.cy + 1] == e.lines[..e.cy + 1];
  }

  /** `o` and `O` open an empty line: after the current one, or before it (`o` on an empty line opens above it). */
  lemma OpenLineSplices(e: Ed)
    requires OnText(e) && e.mode == Normal && e.cy < |e.lines|
    ensures var end := |Text(e.lines[..e.cy])| + |e.lines[e.cy]|; var o := NormalKey(e, 'o' as int, 0);
            end <= |Text(e.lines)| && Text(o.lines) == Splice(Text(e.lines), end, end, [NL])
            && OnText(o) && Offset(o) == end + 1
    ensures var start := |Text(e.lines[..e.cy])|; var o := NormalKey(e, 'O' as int, 0);
            start <= |Text(e.lines)| && Text(o.lines) == Splice(Text(e.lines), start, start, [NL])
            && o.cx == 0 && o.cy == e.cy
  {
    hide Text, Splice, InsertNewline;
    InsertNewlineSplices(e.(cx := |e.lines[e.cy]|));
    TextInsertRow(e.lines, e.cy, []);
    assert [] + [NL] == [NL];
  }

  // ------------------------------------------------ what every key keeps

  predicate Clean(s: seq<byte>) {
    forall i :: 0 <= i < |s| ==> !EndsLine(s[i])
  }

  predicate AllClean(lines: seq<Line>) {
    forall i :: 0 <= i < |lines| ==> Clean(lines[i])
  }

  /** Cursor on the text, no newline or NUL inside a line, bounded buffers. */
  predicate Sound(e: Ed) {
    OnText(e) && AllClean(e.lines) && Clean(e.yank) && |e.yank| <= MAX_TEXT && |e.cmd| <= MAX_COMMAND
    && (e.dirty == 0 || e.dirty == 1 || e.dirty == QUIT)
  }

  /** The one key that leaves the text: pasting below the last line moves the cursor without a row. */
  predicate PastesBelow(e: Ed, c: int) {
    e.mode == Normal && c == 'p' as int && e.yank != [] && e.cy == |e.lines|
  }

  lemma CleanRows(lines: seq<Line>, at: nat, s: Line)
    requires AllClean(lines) && Clean(s)
    ensures AllClean(RowsInsert(lines, at, s))
    ensures at < |lines| ==> AllClean(RowsDelete(lines, at)) && AllClean(lines[at := s])
  {}

  lemma CleanPart(s: seq<byte>, i: nat, j: nat)
    requires Clean(s) && i <= j <= |s|
    ensures Clean(s[i..j]) && Clean(s[..i]) && Clean(s[i..])
  {}

  lemma CleanJoin(s: seq<byte>, t: seq<byte>)
    requires Clean(s) && Clean(t)
    ensures Clean(s + t)
  {}

  lemma CleanLine(s: Line, at: nat, c: byte)
    requires Clean(s) && at <= |s| && !EndsLine(c)
    ensures Clean(LineInsert(s, at, c)) && (at < |s| ==> Clean(LineDelete(s, at)))
  {}

  lemma NewlineKeeps(e: Ed)
    requires Sound(e)
    ensures Sound(InsertNewline(e))
  {
    CleanRows(e.lines, e.cy, []);
    if e.cx > 0 {
      var s := e.lines[e.cy];
      CleanPart(s, e.cx, |s|);
      CleanRows(e.lines, e.cy + 1, s[e.cx..]);
      CleanRows(RowsInsert(e.lines, e.cy + 1, s[e.cx..]), e.cy, s[..e.cx]);
    }
  }

  lemma InsertCharKeeps(e: Ed, c: byte)
    requires Sound(e) && !EndsLine(c)
    ensures Sound(InsertChar(e, c))
  {
    CleanRows(e.lines, |e.lines|, []);
    var d := if e.cy == |e.lines| then InsertRow(e, |e.lines|, []) else e;
    CleanLine(d.lines[d.cy], d.cx, c);
    CleanRows(d.lines, d.cy, LineInsert(d.lines[d.cy], d.cx, c));
  }

  lemma DelCharKeeps(e: Ed)
    requires Sound(e)
    ensures Sound(DelChar(e))
  {
    if e.cy < |e.lines| {
      var s := e.lines[e.cy];
      if e.cx > 0 {
        CleanLine(s, e.cx - 1, 1);
        CleanRows(e.lines, e.cy, LineDelete(s, e.cx - 1));
      } else if e.cy > 0 {
        var t := e.lines[e.cy - 1] + s;
        CleanJoin(e.lines[e.cy - 1], s);
        CleanRows(e.lines, e.cy - 1, t);
        CleanRows(e.lines[e.cy - 1 := t], e.cy, t);
      }
    }
  }

  lemma YankKeeps(e: Ed)
    requires Sound(e)
    ensures Sound(YankLine(e)) && YankLine(e) == e.(yank := YankLine(e).yank)
  {
    if e.cy < |e.lines| && |e.lines[e.cy]| >= MAX_TEXT { CleanPart(e.lines[e.cy], 0, MAX_TEXT); }
  }

  lemma DeleteLineKeeps(e: Ed)
    requires Sound(e)
    ensures Sound(DeleteLine(e))
  {
    YankKeeps(e);
    if e.cy < |e.lines| { CleanRows(e.lines, e.cy, []); }
  }

  lemma PasteKeeps(e: Ed)
    requires Sound(e)
    ensures Sound(PasteLine(e)) <==> e.yank == [] || e.cy < |e.lines|
  {
    CleanRows(e.lines, e.cy + 1, e.yank);
  }

  lemma NormalKeyKeeps(e: Ed, c: int, next: int)
    requires Sound(e) && e.mode == Normal
    ensures Sound(NormalKey(e, c, next)) <==> !PastesBelow(e, c)
  {
    hide AllClean, Clean, MoveCursor, InsertNewline, DeleteLine, YankLine, PasteLine, LineDelete;
    MoveKeeps(e, c);
    NewlineKeeps(e.(cx := if e.cy < |e.lines| then |e.lines[e.cy]| else e.cx));
    CleanNothing();
    CleanRows(e.lines, e.cy, []);
    DeleteLineKeeps(e);
    YankKeeps(e);
    PasteKeeps(e);
    if e.cy < |e.lines| && e.cx < |e.lines[e.cy]| { CutKeeps(e); }
  }

  lemma CleanNothing()
    ensures Clean([])
  {}

  lemma MoveKeeps(e: Ed, key: int)
    requires Sound(e)
    ensures Sound(MoveCursor(e, key))
  {
    hide AllClean, Clean;
  }

  lemma CutKeeps(e: Ed)
    requires Sound(e) && e.cy < |e.lines| && e.cx < |e.lines[e.cy]|
    ensures var s := LineDelete(e.lines[e.cy], e.cx); |s| == |e.lines[e.cy]| - 1 && AllClean(e.lines[e.cy := s])
  {
    CleanLine(e.lines[e.cy], e.cx, 1);
    CleanRows(e.lines, e.cy, LineDelete(e.lines[e.cy], e.cx));
  }

  /** Every key keeps the editor sound, except exactly a paste below the last line. */
  lemma KeyKeeps(e: Ed, c: int, next: int, saved: bool)
    requires Sound(e)
    ensures Sound(Key(e, c, next, saved)) <==> !PastesBelow(e, c)
  {
    hide Sound, NormalKey, InsertKey, CommandKey, OnText;
    match e.mode
    case Normal => NormalKeyKeeps(e, c, next);
    case Insert => InsertKeyKeeps(e, c);
    case Command => CommandKeyKeeps(e, c, saved);
  }

  lemma InsertKeyKeeps(e: Ed, c: int)
    requires Sound(e)
    ensures Sound(InsertKey(e, c))
  {
    hide AllClean, Clean, InsertNewline, DelChar, InsertChar;
    NewlineKeeps(e);
    DelCharKeeps(e);
    if Printable(c) { InsertCharKeeps(e, c as byte); }
  }

  lemma CommandKeyKeeps(e: Ed, c: int, saved: bool)
    requires Sound(e)
    ensures Sound(CommandKey(e, c, saved))
  {
    hide AllClean, Clean, Saves, Quits;
  }

  // ------------------------------------------------ the unsaved-changes flag

  /** Keys that insert a row without setting the flag. */
  predicate ForgetsDirty(e: Ed, c: int) {
    e.mode == Normal
    && (c == 'o' as int || c == 'O' as int || (c == 'p' as int && e.yank != [] && e.cy < |e.lines|))
  }

  /** The lines as last opened or saved, after the key. */
  function SavedAfter(e: Ed, c: int, saved: bool, base: seq<Line>): seq<Line> {
    if Saves(e, c) && saved then e.lines else base
  }

  /** Either the flag is set, or lines and flag are as before. */
  predicate Marked(e: Ed, d: Ed) {
    d.dirty == 1 || (d.lines == e.lines && d.dirty == e.dirty)
  }

  lemma MovesMark(e: Ed, key: int)
    requires OnText(e)
    ensures Marked(e, MoveCursor(e, key)) && Marked(e, YankLine(e)) && Marked(e, DeleteLine(e)) && Marked(e, DelChar(e))
  {}

  lemma RowsGrow(e: Ed)
    requires OnText(e)
    ensures |InsertNewline(e).lines| == |e.lines| + 1 && InsertNewline(e).dirty == e.dirty
    ensures |InsertRow(e, e.cy, []).lines| == |e.lines| + 1
  {}

  lemma NormalMark(e: Ed, c: int, next: int)
    requires OnText(e) && e.mode == Normal
    ensures var d := NormalKey(e, c, next);
            if ForgetsDirty(e, c) then d.lines != e.lines && d.dirty == e.dirty else Marked(e, d)
  {
    hide MoveCursor, InsertNewline, DeleteLine, YankLine, LineDelete, RowsInsert;
    MovesMark(e, c);
    RowsGrow(e.(cx := if e.cy < |e.lines| then |e.lines[e.cy]| else e.cx));
    RowsGrow(e.(cx := 0));
    PasteMark(e);
  }

  lemma PasteMark(e: Ed)
    requires OnText(e)
    ensures |RowsInsert(e.lines, e.cy + 1, e.yank)| == |e.lines| + if e.cy < |e.lines| then 1 else 0
    ensures e.cy == |e.lines| ==> RowsInsert(e.lines, e.cy + 1, e.yank) == e.lines
  {}

  lemma InsertMark(e: Ed, c: int)
    requires OnText(e)
    ensures Marked(e, InsertKey(e, c))
  {
    hide InsertNewline, DelChar;
    MovesMark(e, c);
  }

  /**
    A flag of 0 means the lines are those last opened or saved. A key that does
    not end the session keeps that, except exactly the keys above when the flag is 0.
   */
  lemma FlagKeeps(e: Ed, c: int, next: int, saved: bool, base: seq<Line>)
    requires OnText(e) && (e.dirty == 0 || e.dirty == 1) && (e.dirty == 0 ==> e.lines == base)
    ensures var d := Key(e, c, next, saved);
            (d.dirty == 0 ==> d.lines == SavedAfter(e, c, saved, base)) <==> !(e.dirty == 0 && ForgetsDirty(e, c))
  {
    hide NormalKey, InsertKey;
    match e.mode
    case Normal => NormalMark(e, c, next);
    case Insert => InsertMark(e, c);
    case Command =>
  }

  // ----------------------------------------------------- save and reopen

  /** One round of the save loop: a line, then its newline if there is still room. */
  lemma BoundedNext(lines: seq<Line>, i: nat)
    requires i < |lines| && |Bounded(Text(lines[..i]))| < MAX_TEXT
    ensures var t := Bounded(Text(lines[..i])); var s := lines[i];
            var space := MAX_TEXT - |t|;
            Bounded(Text(lines[..i + 1])) == if |s| < space then t + s + [NL] else t + s[..space]
  {
    TextAround(lines, i);
    hide Text;
    var t := Text(lines[..i]);
    var s, space := lines[i], MAX_TEXT - |t|;
    var u := t + (s + [NL]);
    if |s| >= space { assert u[..MAX_TEXT] == t + s[..space]; }
  }

  /** Once the buffer is full the rest of the text does not matter. */
  lemma BoundedFull(lines: seq<Line>, i: nat)
    requires i <= |lines| && (i == |lines| || |Bounded(Text(lines[..i]))| >= MAX_TEXT)
    ensures Bounded(Text(lines[..i])) == Bounded(Text(lines))
  {
    assert lines == lines[..i] + lines[i..];
    TextConcat(lines[..i], lines[i..]);
    if i == |lines| { assert lines[..i] == lines; }
  }

  /** Opening, byte by byte: a newline or NUL ends the line, any other byte extends it. */
  lemma SplitNext(s: seq<byte>, c: byte)
    ensures var p := Split(s);
            Split(s + [c]) == if c == 10 || c == 0 then p + [[]] else p[|p| - 1 := p[|p| - 1] + [c]]
    ensures Split([]) == [[]]
  {
    assert (s + [c])[..|s|] == s;
  }

  lemma {:induction false} SplitLine(s: seq<byte>, t: Line)
    requires Clean(t)
    ensures var p := Split(s); Split(s + t) == p[..|p| - 1] + [p[|p| - 1] + t]
    decreases |t|
  {
    hide Split;
    var a, last := Split(s)[..|Split(s)| - 1], Split(s)[|Split(s)| - 1];
    if t == [] {
      assert s + t == s && last + t == last;
    } else {
      var u, c := t[..|t| - 1], t[|t| - 1];
      CleanPart(t, 0, |t| - 1);
      assert !EndsLine(c);
      hide Clean, EndsLine;
      SplitLine(s, u);
      SplitNext(s + u, c);
      assert s + t == (s + u) + [c] && last + t == (last + u) + [c];
      assert (a + [last + u])[|a| := (last + u) + [c]] == a + [(last + u) + [c]];
    }
  }

  /** Splitting the text of clean lines gives them back, followed by one empty line. */
  lemma {:induction false} SplitText(lines: seq<Line>)
    requires AllClean(lines)
    ensures Split(Text(lines)) == lines + [[]]
  {
    if lines == [] {
    } else {
      var k := |lines| - 1;
      var a, s := lines[..k], lines[k];
      SplitText(a);
      TextOfOne(s);
      assert lines == a + [s];
      TextConcat(a, [s]);
      var t := Text(a) + s;
      SplitLine(Text(a), s);
      assert [] + s == s;
      assert Split(t) == a + [s];
      assert Text(lines) == t + [NL];
      assert (t + [NL])[..|t|] == t;
    }
  }

  /** What `editorOpen` loads never has a newline or NUL inside a line. */
  lemma {:induction false} SplitClean(s: seq<byte>)
    ensures AllClean(Split(s))
    ensures forall i, j :: 0 <= i < |Split(s)| && 0 <= j < |Split(s)[i]| ==> Split(s)[i][j] != 10 && Split(s)[i][j] != 0
  {
    if s != [] {
      SplitClean(s[..|s| - 1]);
      var p, c := Split(s[..|s| - 1]), s[|s| - 1];
      if !EndsLine(c) {
        CleanJoin(p[|p| - 1], [c]);
      }
    }
  }

  /**
    After a save the file is there exactly when the save can succeed, and then
    opening it gives the pieces of the text, cut at 4095 bytes.
   */
  lemma SaveThenOpen(v: F.Volume, name: F.Name, buf: seq<byte>, t: seq<byte>)
    requires F.Valid(v) && Holds(buf, t) && name != []
    ensures var w := SaveTo(v, name, buf, |t|);
            && F.Valid(w)
            && (F.Find(w.dir, name).Some? <==> CanSave(v, name))
            && (CanSave(v, name) ==> OpenLines(w, name) == if t == [] then [] else Split(t))
  {
    var u := Ensured(v, name);
    EnsuredFound(v, name);
    hide F.Valid, Ensured, F.Find, CanSave;
    F.WriteKeeps(u, name, buf, |t|);
    if F.Find(u.dir, name).Some? { WrittenOpens(u, name, buf, t); }
  }

  /** A file of any size opens as the pieces of its first 4095 bytes; an empty or missing one as no lines. */
  lemma OpensAs(w: F.Volume, name: F.Name, i: nat, n: nat)
    requires F.Valid(w) && F.Find(w.dir, name) == Some(i) && w.dir[i].size == n
    ensures F.UsedSlot(w.dir, i)
    ensures OpenLines(w, name) ==
            if n == 0 then [] else Split(F.Stretch(w.data, w.dir[i].first, if n <= 4095 then n else 4095))
  {}

  lemma WrittenOpens(u: F.Volume, name: F.Name, buf: seq<byte>, t: seq<byte>)
    requires F.Valid(u) && Holds(buf, t) && F.Find(u.dir, name).Some?
    ensures var w := F.Write(u, name, buf, |t|).0;
            F.Valid(w) && F.Find(w.dir, name).Some? && OpenLines(w, name) == if t == [] then [] else Split(t)
  {
    hide F.Valid, F.Write, Split, F.Find, F.Stretch, OpenLines, F.Overlay;
    F.WriteKeeps(u, name, buf, |t|);
    var i := F.Find(u.dir, name).value;
    F.FoundInRange(u, name);
    F.ReadBack(u, name, buf, |t|);
    OpensAs(F.Write(u, name, buf, |t|).0, name, i, |t|);
  }

  /** The pieces of a string spell it out again, with one line end more. */
  lemma {:induction false} SplitLength(s: seq<byte>)
    ensures |Text(Split(s))| == |s| + 1
  {
    if s == [] {
      TextOfOne([]);
    } else {
      var p, c := Split(s[..|s| - 1]), s[|s| - 1];
      SplitLength(s[..|s| - 1]);
      var a, last := p[..|p| - 1], p[|p| - 1];
      assert p == a + [last] && p[|p| - 1 := last + [c]] == a + [last + [c]];
      TextConcat(a, [last]);
      TextConcat(a, [last + [c]]);
      TextConcat(p, [[]]);
      TextOfOne(last); TextOfOne(last + [c]); TextOfOne([]);
    }
  }

  /** Saved lines come back, followed by exactly one empty line, if and only if there are any and their text fits. */
  lemma SaveReopen(v: F.Volume, name: F.Name, buf: seq<byte>, lines: seq<Line>)
    requires F.Valid(v) && CanSave(v, name) && AllClean(lines) && Holds(buf, Bounded(Text(lines)))
    ensures F.Valid(SaveTo(v, name, buf, |Bounded(Text(lines))|))
    ensures OpenLines(SaveTo(v, name, buf, |Bounded(Text(lines))|), name) == lines + [[]] <==>
            lines != [] && |Text(lines)| <= MAX_TEXT
  {
    var t := Bounded(Text(lines));
    SaveThenOpen(v, name, buf, t);
    SplitText(lines);
    SplitLength(t);
    TextConcat(lines, [[]]);
    TextOfOne([]);
    assert lines != [] ==> Text(lines) != [];
    hide F.Valid, Text, SaveTo, OpenLines, Split;
    if OpenLines(SaveTo(v, name, buf, |t|), name) == lines + [[]] { assert t != []; }
  }

  /** On a tidy volume a save is one update of the map from names to byte strings. */
  lemma SaveUpdatesMap(v: F.Volume, name: F.Name, buf: seq<byte>, t: seq<byte>)
    requires F.Tidy(v) && Holds(buf, t) && |name| < F.MAX_FILENAME_LEN && CanSave(v, name)
    ensures F.Tidy(SaveTo(v, name, buf, |t|))
    ensures F.Files(SaveTo(v, name, buf, |t|)) == F.Files(v)[name := t]
  {
    hide F.Tidy, F.Files;
    if F.Find(v.dir, name).None? {
      F.TidyValid(v);
      F.CreateKeeps(v, name);
      F.CreateFiles(v, name);
      CreatedFound(v, name);
      F.WriteFiles(F.Create(v, name).0, name, buf, |t|);
    } else {
      F.WriteFiles(v, name, buf, |t|);
    }
  }

  // --------------------------------------------------------- whole sessions

  /** What a save finds in its block-sized stack buffer beyond the text is arbitrary. */
  type Garbage = s: seq<byte> | |s| == F.BLOCK_SIZE witness seq(F.BLOCK_SIZE, _ => 0)

  /** A key, the one after it, which only `d` and `y` read, and the buffer of a save. */
  datatype Press = Press(c: int, next: int, rest: Garbage)

  /** The editor, the volume, and the lines as last opened or saved. */
  datatype World = World(e: Ed, v: F.Volume, base: seq<Line>)

  ghost predicate Good(w: World) {
    Sound(w.e) && F.Valid(w.v)
  }

  /** The buffer of a save: the text in front of whatever was there. */
  function Block(t: seq<byte>, rest: Garbage): (b: seq<byte>)
    requires |t| <= MAX_TEXT
    ensures |b| == F.BLOCK_SIZE && b[..|t|] == t
  {
    t + rest[|t|..]
  }

  ghost function Stored(v: F.Volume, e: Ed, rest: Garbage): F.Volume
    requires F.Valid(v)
  {
    var t := Bounded(Text(e.lines));
    SaveTo(v, e.filename, Block(t, rest), |t|)
  }

  /** One key of a session; after the editor has quit nothing happens any more. */
  ghost function After(w: World, p: Press): World
    requires Good(w)
  {
    if w.e.dirty == QUIT then w
    else
      var ok := CanSave(w.v, w.e.filename);
      World(Key(w.e, p.c, p.next, ok), if Saves(w.e, p.c) then Stored(w.v, w.e, p.rest) else w.v,
            SavedAfter(w.e, p.c, ok, w.base))
  }

  /** Whatever block `editorSave` writes, it is a save of this kind. */
  lemma SavedIsStored(v: F.Volume, e: Ed, w: F.Volume)
    requires F.Valid(v)
    ensures Saved(v, e, w) <==> exists rest: Garbage :: w == Stored(v, e, rest)
  {
    hide SaveTo, Text;
    var t := Bounded(Text(e.lines));
    if Saved(v, e, w) {
      var buf :| Holds(buf, t) && w == SaveTo(v, e.filename, buf, |t|);
      assert Block(t, buf) == buf;
      assert w == Stored(v, e, buf);
    }
    if rest: Garbage :| w == Stored(v, e, rest) { assert Holds(Block(t, rest), t); }
  }

  ghost predicate Saved(v: F.Volume, e: Ed, w: F.Volume)
    requires F.Valid(v)
  {
    exists buf :: Holds(buf, Bounded(Text(e.lines))) && w == SaveTo(v, e.filename, buf, |Bounded(Text(e.lines))|)
  }

  lemma StoredValid(v: F.Volume, e: Ed, rest: Garbage)
    requires F.Valid(v)
    ensures F.Valid(Stored(v, e, rest))
  {
    hide F.Valid, Text;
    var t := Bounded(Text(e.lines));
    assert Holds(Block(t, rest), t);
    if e.filename != [] { SaveThenOpen(v, e.filename, Block(t, rest), t); }
  }

  /** One key keeps editor and volume in order, except exactly a paste below the last line. */
  lemma AfterKeeps(w: World, p: Press)
    requires Good(w)
    ensures F.Valid(After(w, p).v)
    ensures Good(After(w, p)) <==> w.e.dirty == QUIT || !PastesBelow(w.e, p.c)
  {
    hide Sound, F.Valid, Key, Stored, CanSave, PastesBelow;
    KeyKeeps(w.e, p.c, p.next, CanSave(w.v, w.e.filename));
    StoredValid(w.v, w.e, p.rest);
  }

  /** Every state of the session is in order. */
  ghost predicate AllGood(w: World, ps: seq<Press>)
    decreases |ps|
  {
    Good(w) && (ps == [] || AllGood(After(w, ps[0]), ps[1..]))
  }

  /** No key of the session pastes below the last line. */
  ghost predicate NeverPastesBelow(w: World, ps: seq<Press>)
    requires Good(w)
    decreases |ps|
  {
    ps == [] || ((w.e.dirty == QUIT || !PastesBelow(w.e, ps[0].c))
                 && (AfterKeeps(w, ps[0]); NeverPastesBelow(After(w, ps[0]), ps[1..])))
  }

  /** Over whole sessions: every state is in order exactly when no key pastes below the last line. */
  lemma {:induction false} SessionSound(w: World, ps: seq<Press>)
    requires Good(w)
    ensures AllGood(w, ps) <==> NeverPastesBelow(w, ps)
    decreases |ps|
  {
    hide Good, After, PastesBelow;
    if ps != [] {
      AfterKeeps(w, ps[0]);
      if w.e.dirty == QUIT || !PastesBelow(w.e, ps[0].c) { SessionSound(After(w, ps[0]), ps[1..]); }
    }
  }

  /** Where a session ends. */
  ghost function Play(w: World, ps: seq<Press>): World
    requires AllGood(w, ps)
    decreases |ps|
  {
    if ps == [] then w else Play(After(w, ps[0]), ps[1..])
  }

  ghost predicate Honest(w: World) {
    w.e.dirty == 0 ==> w.e.lines == w.base
  }

  ghost predicate AllHonest(w: World, ps: seq<Press>)
    requires AllGood(w, ps)
    decreases |ps|
  {
    Honest(w) && (ps == [] || AllHonest(After(w, ps[0]), ps[1..]))
  }

  /** No key inserts a row behind a clear flag's back. */
  ghost predicate NeverForgets(w: World, ps: seq<Press>)
    requires AllGood(w, ps)
    decreases |ps|
  {
    ps == [] || (!(w.e.dirty == 0 && ForgetsDirty(w.e, ps[0].c)) && NeverForgets(After(w, ps[0]), ps[1..]))
  }

  /** Over whole sessions: the flag is honest in every state exactly when no forgetful key comes while it is clear. */
  lemma {:induction false} SessionFlag(w: World, ps: seq<Press>)
    requires AllGood(w, ps) && Honest(w)
    ensures AllHonest(w, ps) <==> NeverForgets(w, ps)
    decreases |ps|
  {
    hide Good, ForgetsDirty;
    if ps != [] {
      AfterHonest(w, ps[0]);
      hide After, Honest;
      if !(w.e.dirty == 0 && ForgetsDirty(w.e, ps[0].c)) { SessionFlag(After(w, ps[0]), ps[1..]); }
    }
  }

  lemma AfterHonest(w: World, p: Press)
    requires Good(w) && Honest(w)
    ensures Honest(After(w, p)) <==> !(w.e.dirty == 0 && ForgetsDirty(w.e, p.c))
  {
    hide Key, ForgetsDirty, F.Valid, SavedAfter, Stored;
    if w.e.dirty != QUIT { FlagKeeps(w.e, p.c, p.next, CanSave(w.v, w.e.filename), w.base); }
  }

  /** Plain `:q` leaves exactly when the flag is clear; in such a session nothing unsaved is then lost. */
  lemma PlainQuit(w: World, ps: seq<Press>, p: Press)
    requires AllGood(w, ps) && Honest(w) && NeverForgets(w, ps)
    requires Play(w, ps).e.mode == Command && Play(w, ps).e.cmd == CMD_QUIT && Play(w, ps).e.dirty != QUIT
    requires p.c == NEWLINE
    ensures Good(Play(w, ps))
    ensures After(Play(w, ps), p).e.dirty == QUIT <==> Play(w, ps).e.dirty == 0
    ensures After(Play(w, ps), p).e.dirty == QUIT ==> After(Play(w, ps), p).e.lines == After(Play(w, ps), p).base
  {
    SessionFlag(w, ps);
    LastHonest(w, ps);
  }

  lemma {:induction false} LastHonest(w: World, ps: seq<Press>)
    requires AllGood(w, ps) && AllHonest(w, ps)
    ensures Good(Play(w, ps)) && Honest(Play(w, ps))
    decreases |ps|
  {
    hide Good, Honest, After;
    if ps != [] { LastHonest(After(w, ps[0]), ps[1..]); }
  }

  lemma FilenameKept(e: Ed, c: int, next: int, saved: bool)
    requires OnText(e)
    ensures Key(e, c, next, saved).filename == e.filename
  {
    hide NormalKey, InsertKey, CommandKey;
    match e.mode
    case Normal => NormalKeepsFilename(e, c, next);
    case Insert => InsertKeepsFilename(e, c);
    case Command => CommandKeepsFilename(e, c, saved);
  }

  lemma CommandKeepsFilename(e: Ed, c: int, saved: bool)
    ensures CommandKey(e, c, saved).filename == e.filename
  {
    hide Saves, Quits;
  }

  lemma InsertKeepsFilename(e: Ed, c: int)
    requires OnText(e)
    ensures InsertKey(e, c).filename == e.filename
  {
    EditsKeepFilename(e);
    hide InsertNewline, DelChar, LineInsert, RowsInsert;
  }

  lemma NormalKeepsFilename(e: Ed, c: int, next: int)
    requires OnText(e)
    ensures NormalKey(e, c, next).filename == e.filename
  {
    MoveKeepsFilename(e, c);
    EditsKeepFilename(e);
    EditsKeepFilename(e.(cx := if e.cy < |e.lines| then |e.lines[e.cy]| else e.cx));
    hide MoveCursor, InsertNewline, DelChar, DeleteLine, LineDelete, RowsInsert;
  }

  lemma EditsKeepFilename(e: Ed)
    requires OnText(e)
    ensures DelChar(e).filename == InsertNewline(e).filename == DeleteLine(e).filename == e.filename
  {
    hide RowsInsert, RowsDelete, LineDelete;
  }

  lemma MoveKeepsFilename(e: Ed, key: int)
    requires OnText(e)
    ensures MoveCursor(e, key).filename == e.filename
  {}

  /** A save that cannot succeed leaves the volume alone, if the name is short. */
  lemma UnsavableKeeps(v: F.Volume, e: Ed, rest: Garbage)
    requires F.Valid(v) && |e.filename| < F.MAX_FILENAME_LEN && !CanSave(v, e.filename)
    ensures Stored(v, e, rest) == v
  {
    if e.filename != [] {
      F.CreateKeeps(v, e.filename);
      F.SlotCount(v.dir);
    }
  }

  /** Whether some key of the session saves the file. */
  ghost predicate SavesOnce(w: World, ps: seq<Press>)
    requires AllGood(w, ps)
    decreases |ps|
  {
    ps != [] && (SavesNow(w, ps[0]) || SavesOnce(After(w, ps[0]), ps[1..]))
  }

  ghost predicate SavesNow(w: World, p: Press) {
    w.e.dirty != QUIT && Saves(w.e, p.c) && CanSave(w.v, w.e.filename)
  }

  /** A file map with what a save of the lines `base` stores. */
  ghost function Updated(files: F.FileMap, name: F.Name, base: seq<Line>): F.FileMap {
    files[name := Bounded(Text(base))]
  }

  lemma AfterFiles(w: World, p: Press)
    requires Good(w) && F.Tidy(w.v) && |w.e.filename| < F.MAX_FILENAME_LEN
    ensures var x := After(w, p);
            && F.Tidy(x.v) && x.e.filename == w.e.filename
            && (if SavesNow(w, p) then F.Files(x.v) == Updated(F.Files(w.v), w.e.filename, x.base)
                else F.Files(x.v) == F.Files(w.v) && x.base == w.base)
  {
    FilenameKept(w.e, p.c, p.next, CanSave(w.v, w.e.filename));
    hide F.Tidy, F.Files, F.Valid, SaveTo, Text, Key, CanSave;
    if w.e.dirty != QUIT && Saves(w.e, p.c) {
      if CanSave(w.v, w.e.filename) {
        var t := Bounded(Text(w.e.lines));
        SaveUpdatesMap(w.v, w.e.filename, Block(t, p.rest), t);
      } else {
        UnsavableKeeps(w.v, w.e, p.rest);
      }
    }
  }

  /**
    On a tidy volume a session changes no file but its own, and that one only by
    saving: it ends up holding the lines last saved, cut at 4095 bytes.
   */
  lemma {:induction false} SessionFiles(w: World, ps: seq<Press>)
    requires AllGood(w, ps) && F.Tidy(w.v) && |w.e.filename| < F.MAX_FILENAME_LEN
    ensures var x := Play(w, ps);
            && F.Tidy(x.v)
            && (if SavesOnce(w, ps) then F.Files(x.v) == Updated(F.Files(w.v), w.e.filename, x.base)
                else F.Files(x.v) == F.Files(w.v) && x.base == w.base)
    decreases |ps|
  {
    hide Good, F.Tidy, F.Files, After, SavesNow, Text, Bounded;
    if ps != [] {
      AfterFiles(w, ps[0]);
      SessionFiles(After(w, ps[0]), ps[1..]);
    }
  }

  // --------------------------------------------- the excluded keys, in runs

  /** What `editorOpen` leaves behind after `initEditor`. */
  ghost function Opened(v: F.Volume, name: F.Name, yank: Line): Ed
    requires F.Valid(v)
  {
    Initial(yank).(lines := OpenLines(v, name), filename := if |name| <= 63 then name else name[..63])
  }

  /** Every session starts sound, with nothing unsaved. */
  lemma OpenedSound(v: F.Volume, name: F.Name, yank: Line)
    requires F.Valid(v) && Clean(yank) && |yank| <= MAX_TEXT
    ensures Sound(Opened(v, name, yank))
    ensures var e := Opened(v, name, yank);
            && e.cx == e.cy == 0 && e.mode == Normal && e.dirty == 0 && e.cmd == [] && e.yank == yank
            && e.lines == OpenLines(v, name) && e.filename == if |name| <= 63 then name else name[..63]
  {
    var r := F.Find(v.dir, name);
    if r.Some? && v.dir[r.value].size > 0 {
      assert F.UsedSlot(v.dir, r.value);
      var n := if v.dir[r.value].size <= MAX_TEXT then v.dir[r.value].size else MAX_TEXT;
      SplitClean(F.Stretch(v.data, v.dir[r.value].first, n));
    }
  }

  /** `i a ESC d d p` in an empty file puts the cursor on line 1 of a text with no lines. */
  lemma PasteBelowHappens()
    ensures var a := Key(Initial([]), 'i' as int, 0, false);
            var b := Key(a, 'a' as int, 0, false);
            var c := Key(b, ESC, 0, false);
            var d := Key(c, 'd' as int, 'd' as int, false);
            Sound(d) && PastesBelow(d, 'p' as int)
            && Key(d, 'p' as int, 0, false).cy == 1 && Key(d, 'p' as int, 0, false).lines == []
  {
    var a := Key(Initial([]), 'i' as int, 0, false);
    var b := Key(a, 'a' as int, 0, false);
    assert RowsInsert([], 0, []) == [[]] && LineInsert([], 0, 'a' as byte) == ['a' as byte];
    assert b.lines == [['a' as byte]] && b.cx == 1;
    var c := Key(b, ESC, 0, false);
    var d := Key(c, 'd' as int, 'd' as int, false);
    assert d.lines == [] && d.yank == ['a' as byte] && d.cy == 0;
  }

  /** `o ESC : q` and a newline leave with a row that was never saved. */
  lemma ForgottenRowHappens()
    ensures var a := Key(Initial([]), 'o' as int, 0, false);
            var b := Key(a, ESC, 0, false);
            var c := Key(b, ':' as int, 0, false);
            var d := Key(c, 'q' as int, 0, false);
            d.lines == [[]] && d.dirty == 0 && Quits(d, NEWLINE)
  {}
}
