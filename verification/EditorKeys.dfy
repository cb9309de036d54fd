/**
  What each key of the editor does (`fs/ed.c:334-425`), by its code: how it moves
  the cursor in the text, which bytes it puts in or takes out, and what it leaves
  alone. At the end, what the typed commands do to the file.
 */
module EditorKeys {
  import opened Bytes
  import opened Common
  import opened EditorModel
  import F = EasyFsModel

  /** The length of the line the cursor is on, 0 below the last one. */
  function LineLength(lines: seq<Line>, cy: nat): nat {
    if cy < |lines| then |lines[cy]| else 0
  }

  function Min(a: nat, b: nat): nat {
    if a < b then a else b
  }

  // ------------------------------------------------------------ NORMAL mode

  /** `h` and left: the position in the text goes back by one, across line ends. */
  lemma LeftKey(e: Ed, c: int, next: int, saved: bool)
    requires OnText(e) && e.mode == Normal && (c == 'h' as int || c == 1002)
    ensures var d := Key(e, c, next, saved);
            d == e.(cx := d.cx, cy := d.cy) && OnText(d) && Offset(d) == if Offset(e) > 0 then Offset(e) - 1 else 0
  {
    MoveLeftOffset(e);
  }

  /** `l` and right: forward by one within the line. */
  lemma RightKey(e: Ed, c: int, next: int, saved: bool)
    requires OnText(e) && e.mode == Normal && (c == 'l' as int || c == 1003)
    ensures var d := Key(e, c, next, saved);
            && d == e.(cx := d.cx) && OnText(d)
            && Offset(d) == Offset(e) + if e.cx < LineLength(e.lines, e.cy) then 1 else 0
  {
    MoveRightOffset(e);
  }

  /** `j`, `k`, down and up: to the neighbouring line if there is one, in the same column or at its end. */
  lemma VerticalKey(e: Ed, c: int, next: int, saved: bool)
    requires OnText(e) && e.mode == Normal
    requires c == 'j' as int || c == 1001 || c == 'k' as int || c == 1000
    ensures var d := Key(e, c, next, saved);
            && d == e.(cx := d.cx, cy := d.cy) && d.cx == Min(e.cx, LineLength(e.lines, d.cy))
            && d.cy == if c == 'j' as int || c == 1001 then (if e.cy + 1 < |e.lines| then e.cy + 1 else e.cy)
                       else if e.cy > 0 then e.cy - 1 else 0
  {}

  /** `i` starts inserting at the cursor, `a` after the character under it. */
  lemma InsertModeKey(e: Ed, next: int, saved: bool)
    requires OnText(e) && e.mode == Normal
    ensures Key(e, 'i' as int, next, saved) == e.(mode := Insert)
    ensures var d := Key(e, 'a' as int, next, saved);
            && d == e.(mode := Insert, cx := d.cx) && OnText(d)
            && Offset(d) == Offset(e) + if e.cx < LineLength(e.lines, e.cy) then 1 else 0
  {
    hide Text;
  }

  /** `o` opens a line below and puts the cursor after the newline it adds; below the last line it adds one there. */
  lemma OpenBelowKey(e: Ed, next: int, saved: bool)
    requires OnText(e) && e.mode == Normal
    ensures var d := Key(e, 'o' as int, next, saved);
            var end := |Text(e.lines[..e.cy])| + LineLength(e.lines, e.cy);
            && d == e.(lines := d.lines, cx := d.cx, cy := d.cy, mode := Insert) && end <= |Text(e.lines)|
            && Text(d.lines) == Splice(Text(e.lines), end, end, [10]) && OnText(d) && Offset(d) == end + 1
  {
    hide Text, Splice, RowsInsert;
    InsertNewlineSplices(e.(cx := LineLength(e.lines, e.cy)));
  }

  /** `O` opens a line above, on which the cursor stays. */
  lemma OpenAboveKey(e: Ed, next: int, saved: bool)
    requires OnText(e) && e.mode == Normal
    ensures var d := Key(e, 'O' as int, next, saved);
            var start := |Text(e.lines[..e.cy])|;
            && d == e.(lines := d.lines, cx := 0, mode := Insert) && start <= |Text(e.lines)|
            && Text(d.lines) == Splice(Text(e.lines), start, start, [10])
            && e.cy < |d.lines| && d.lines[e.cy] == []
  {
    hide Text, Splice;
    TextInsertRow(e.lines, e.cy, []);
    assert [] + [NL] == [10];
  }

  /** `x` takes the character under the cursor, which steps back at the end of the line; elsewhere it does nothing. */
  lemma CutKey(e: Ed, next: int, saved: bool)
    requires OnText(e) && e.mode == Normal
    ensures var d := Key(e, 'x' as int, next, saved); var n := LineLength(e.lines, e.cy);
            && (e.cx >= n ==> d == e)
            && (e.cx < n ==>
                  && Offset(e) < |Text(e.lines)|
                  && d == e.(lines := d.lines, cx := if e.cx + 1 == n && e.cx > 0 then e.cx - 1 else e.cx, dirty := 1)
                  && Text(d.lines) == Splice(Text(e.lines), Offset(e), Offset(e) + 1, []))
  {
    hide Text, Splice;
    if e.cx < LineLength(e.lines, e.cy) { CutSplices(e); }
  }

  /** What the yank buffer keeps of a line. */
  function Kept(line: Line): Line {
    line[..Min(|line|, 4095)]
  }

  /**
    `dd` takes the line with its newline and yanks it; below the last line it only
    moves up. `d` and another key do nothing.
   */
  lemma DeleteKey(e: Ed, next: int, saved: bool)
    requires OnText(e) && e.mode == Normal
    ensures var d := Key(e, 'd' as int, next, saved);
            && (next != 'd' as int || e.lines == [] ==> d == e)
            && (next == 'd' as int && e.lines != [] && e.cy == |e.lines| ==> d == e.(cx := 0, cy := e.cy - 1))
            && (next == 'd' as int && e.cy < |e.lines| ==>
                  var from := |Text(e.lines[..e.cy])|; var to := from + |e.lines[e.cy]| + 1;
                  && to <= |Text(e.lines)| && Text(d.lines) == Splice(Text(e.lines), from, to, [])
                  && d == e.(lines := d.lines, cx := 0, dirty := 1, yank := Kept(e.lines[e.cy]),
                             cy := if e.cy + 1 == |e.lines| && e.cy > 0 then e.cy - 1 else e.cy))
  {
    hide Text, Splice;
    if e.cy < |e.lines| { DeleteLineSplices(e); }
  }

  /** `yy` yanks the line's first 4095 bytes and changes nothing else; `y` and another key do nothing. */
  lemma YankKey(e: Ed, next: int, saved: bool)
    requires OnText(e) && e.mode == Normal
    ensures Key(e, 'y' as int, next, saved) ==
            if next == 'y' as int && e.cy < |e.lines| then e.(yank := Kept(e.lines[e.cy])) else e
  {}

  /** `p` puts the yanked line in below and the cursor on it, or on nothing if it was below the last line. */
  lemma PasteKey(e: Ed, next: int, saved: bool)
    requires OnText(e) && e.mode == Normal
    ensures var d := Key(e, 'p' as int, next, saved);
            && (e.yank == [] ==> d == e)
            && (e.yank != [] ==> d == e.(lines := d.lines, cx := 0, cy := e.cy + 1))
            && (e.cy == |e.lines| ==> d.lines == e.lines)
            && (e.yank != [] && e.cy < |e.lines| ==>
                  var at := |Text(e.lines[..e.cy + 1])|;
                  at <= |Text(e.lines)| && Text(d.lines) == Splice(Text(e.lines), at, at, e.yank + [10])
                  && d.cy < |d.lines| && d.lines[d.cy] == e.yank)
  {
    hide Text, Splice;
    if e.yank != [] && e.cy < |e.lines| { PasteSplices(e); }
  }

  /** `:` starts a command; every other key does nothing. */
  lemma OtherNormalKey(e: Ed, c: int, next: int, saved: bool)
    requires OnText(e) && e.mode == Normal
    ensures Key(e, ':' as int, next, saved) == e.(mode := Command, cmd := [])
    ensures !(1000 <= c <= 1003) && !(32 <= c < 127 && c as char in "hjklioaOxdyp:") ==> Key(e, c, next, saved) == e
  {
    var keys := "hjklioaOxdyp:";
    assert keys[0] == 'h' && keys[1] == 'j' && keys[2] == 'k' && keys[3] == 'l' && keys[4] == 'i' && keys[5] == 'o'
           && keys[6] == 'a' && keys[7] == 'O' && keys[8] == 'x' && keys[9] == 'd' && keys[10] == 'y' && keys[11] == 'p'
           && keys[12] == ':';
  }

  // ------------------------------------------------------------ INSERT mode

  /** A printable character goes in at the cursor, or on a new line below the last one. */
  lemma TypedKey(e: Ed, c: int, next: int, saved: bool)
    requires OnText(e) && e.mode == Insert && 32 <= c < 127
    ensures var d := Key(e, c, next, saved);
            && d == e.(lines := d.lines, cx := e.cx + 1, dirty := 1) && OnText(d) && Offset(d) == Offset(e) + 1
            && Offset(e) <= |Text(e.lines)|
            && Text(d.lines) == if e.cy < |e.lines| then Splice(Text(e.lines), Offset(e), Offset(e), [c as byte])
                                else Text(e.lines) + [c as byte, 10]
  {
    hide Text, Splice, LineInsert;
    if e.cy < |e.lines| { InsertCharSplices(e, c as byte); } else { InsertCharAppends(e, c as byte); }
  }

  /** Enter puts a newline in at the cursor. */
  lemma EnterKey(e: Ed, next: int, saved: bool)
    requires OnText(e) && e.mode == Insert
    ensures var d := Key(e, 10, next, saved);
            && d == e.(lines := d.lines, cx := 0, cy := e.cy + 1, dirty := 1) && OnText(d) && Offset(d) == Offset(e) + 1
            && Offset(e) <= |Text(e.lines)| && Text(d.lines) == Splice(Text(e.lines), Offset(e), Offset(e), [10])
  {
    hide Text, Splice, RowsInsert;
    InsertNewlineSplices(e);
  }

  /** Backspace takes the byte before the cursor; at the start of the text and below the last line it does nothing. */
  lemma BackspaceKey(e: Ed, c: int, next: int, saved: bool)
    requires OnText(e) && e.mode == Insert && (c == 8 || c == 127)
    ensures var d := Key(e, c, next, saved);
            && (e.cy == |e.lines| || (e.cx == 0 && e.cy == 0) ==> d == e)
            && (e.cy < |e.lines| && !(e.cx == 0 && e.cy == 0) ==>
                  && d == e.(lines := d.lines, cx := d.cx, cy := d.cy, dirty := 1) && OnText(d)
                  && 0 < Offset(e) <= |Text(e.lines)| && Offset(d) == Offset(e) - 1
                  && Text(d.lines) == Splice(Text(e.lines), Offset(e) - 1, Offset(e), []))
  {
    hide Text, Splice, LineDelete, RowsDelete;
    DelCharSplices(e);
  }

  /** Escape leaves INSERT mode and steps back within the line; every other key does nothing. */
  lemma EscapeKey(e: Ed, c: int, next: int, saved: bool)
    requires OnText(e) && e.mode == Insert
    ensures Key(e, 27, next, saved) == e.(mode := Normal, cx := if e.cx > 0 then e.cx - 1 else 0)
    ensures !(32 <= c < 127) && c != 27 && c != 10 && c != 8 && c != 127 ==> Key(e, c, next, saved) == e
  {}

  // ----------------------------------------------------------- COMMAND mode

  /** A printable key extends the command up to 78 bytes, backspace takes the last byte, escape drops it. */
  lemma CommandEditKey(e: Ed, c: int, next: int, saved: bool)
    requires OnText(e) && e.mode == Command && c != 10
    ensures Key(e, c, next, saved) ==
            if c == 27 then e.(mode := Normal, cmd := [])
            else if c == 8 || c == 127 then e.(cmd := if e.cmd == [] then [] else e.cmd[..|e.cmd| - 1])
            else if 32 <= c < 127 && |e.cmd| < 78 then e.(cmd := e.cmd + [c as byte])
            else e
  {}

  function Typed(s: string): (r: seq<byte>)
    requires forall i :: 0 <= i < |s| ==> s[i] as int < 256
  {
    seq(|s|, i requires 0 <= i < |s| => s[i] as byte)
  }

  /**
    Enter carries the command out: `q` leaves unless something is unsaved, `q!` and
    `wq` leave, `w` and `wq` clear the flag if the save can succeed, and anything
    else only ends the command. Leaving is the flag value -9999.
   */
  lemma CommandEnterKey(e: Ed, next: int, saved: bool)
    requires OnText(e) && e.mode == Command
    ensures Key(e, 10, next, saved) ==
            if e.cmd == Typed("q") then (if e.dirty > 0 then e.(mode := Normal) else e.(dirty := -9999))
            else if e.cmd == Typed("q!") || e.cmd == Typed("wq") then e.(dirty := -9999)
            else if e.cmd == Typed("w") then e.(mode := Normal, dirty := if saved then 0 else e.dirty)
            else e.(mode := Normal)
    ensures Saves(e, 10) <==> e.cmd == Typed("w") || e.cmd == Typed("wq")
  {
    assert Typed("q") == CMD_QUIT && Typed("q!") == CMD_FORCE;
    assert Typed("w") == CMD_WRITE && Typed("wq") == CMD_WRITE_QUIT;
    assert CMD_QUIT[0] != CMD_WRITE[0] && |CMD_QUIT| == |CMD_WRITE| == 1 && |CMD_FORCE| == |CMD_WRITE_QUIT| == 2;
    assert CMD_FORCE[0] != CMD_WRITE_QUIT[0];
  }

  // ---------------------------------------------------------- typed commands

  /** The keys of a text, all with the same stack garbage for a save. */
  function Keys(text: string, rest: Garbage): (ps: seq<Press>)
    ensures |ps| == |text|
  {
    seq(|text|, i requires 0 <= i < |text| => Press(text[i] as int, 0, rest))
  }

  lemma KeysNext(text: string, rest: Garbage)
    requires text != []
    ensures Keys(text, rest)[0] == Press(text[0] as int, 0, rest) && Keys(text, rest)[1..] == Keys(text[1..], rest)
  {}

  ghost predicate Editing(w: World) {
    Good(w) && w.e.dirty != QUIT && w.e.mode == Normal
  }

  /** `:` and then a command of up to 78 printable bytes: nothing but mode and command buffer changes. */
  lemma CommandTyped(w: World, text: string, rest: Garbage)
    requires Editing(w) && |text| <= 78 && forall i :: 0 <= i < |text| ==> 32 <= text[i] as int < 127
    ensures AllGood(w, Keys(":" + text, rest))
    ensures Play(w, Keys(":" + text, rest)) == w.(e := w.e.(mode := Command, cmd := Typed(text)))
  {
    var all := ":" + text;
    KeysNext(all, rest);
    assert all[1..] == text && all[0] == ':';
    var x := After(w, Press(':' as int, 0, rest));
    AfterKeeps(w, Press(':' as int, 0, rest));
    assert x == w.(e := w.e.(mode := Command, cmd := []));
    hide After, Key, Good;
    CommandGrows(x, text, rest);
    assert [] + Typed(text) == Typed(text);
  }

  lemma CommandGrowsByOne(w: World, c: int, rest: Garbage)
    requires Good(w) && w.e.dirty != QUIT && w.e.mode == Command && |w.e.cmd| < 78 && 32 <= c < 127
    ensures After(w, Press(c, 0, rest)) == w.(e := w.e.(cmd := w.e.cmd + [c as byte]))
    ensures Good(After(w, Press(c, 0, rest)))
  {
    AfterKeeps(w, Press(c, 0, rest));
    CommandEditKey(w.e, c, 0, CanSave(w.v, w.e.filename));
    hide Key, Good, CanSave;
  }

  lemma {:induction false} CommandGrows(w: World, text: string, rest: Garbage)
    requires Good(w) && w.e.dirty != QUIT && w.e.mode == Command && |w.e.cmd| + |text| <= 78
    requires forall i :: 0 <= i < |text| ==> 32 <= text[i] as int < 127
    ensures AllGood(w, Keys(text, rest))
    ensures Play(w, Keys(text, rest)) == w.(e := w.e.(cmd := w.e.cmd + Typed(text)))
    decreases |text|
  {
    if text == "" {
      assert w.e.cmd + Typed(text) == w.e.cmd;
    } else {
      var c := text[0] as int;
      KeysNext(text, rest);
      hide Good, Keys;
      CommandGrowsByOne(w, c, rest);
      var x := After(w, Press(c, 0, rest));
      hide After;
      CommandGrows(x, text[1..], rest);
      assert w.e.cmd + [c as byte] + Typed(text[1..]) == w.e.cmd + Typed(text);
    }
  }

  /** The world after `:`, the command and Enter. */
  ghost function Carried(w: World, text: string, rest: Garbage): World
    requires Editing(w) && |text| <= 78 && forall i :: 0 <= i < |text| ==> 32 <= text[i] as int < 127
  {
    CommandTyped(w, text, rest);
    LastGood(w, Keys(":" + text, rest));
    After(Play(w, Keys(":" + text, rest)), Press(10, 0, rest))
  }

  lemma {:induction false} LastGood(w: World, ps: seq<Press>)
    requires AllGood(w, ps)
    ensures Good(Play(w, ps))
    decreases |ps|
  {
    hide Good, After;
    if ps != [] { LastGood(After(w, ps[0]), ps[1..]); }
  }

  /** What is on the volume after a save: the file, and in it the text's pieces, cut at 4095 bytes. */
  ghost predicate HoldsText(v: F.Volume, e: Ed) {
    F.Valid(v) && F.Find(v.dir, e.filename).Some?
    && OpenLines(v, e.filename) == var t := Bounded(Text(e.lines)); if t == [] then [] else Split(t)
  }

  /**
    `:w` stores the text and clears the flag if the save can succeed, and goes on;
    `:wq` stores it and leaves.
   */
  lemma WriteCommands(w: World, rest: Garbage)
    requires Editing(w)
    ensures var x := Carried(w, "w", rest);
            && x.e == w.e.(cmd := Typed("w"), dirty := if CanSave(w.v, w.e.filename) then 0 else w.e.dirty)
            && (CanSave(w.v, w.e.filename) ==> HoldsText(x.v, w.e) && x.base == w.e.lines)
    ensures var x := Carried(w, "wq", rest);
            && x.e == w.e.(mode := Command, cmd := Typed("wq"), dirty := -9999)
            && (CanSave(w.v, w.e.filename) ==> HoldsText(x.v, w.e) && x.base == w.e.lines)
  {
    CommandTyped(w, "w", rest);
    CommandTyped(w, "wq", rest);
    CommandEnterKey(w.e.(mode := Command, cmd := Typed("w")), 0, CanSave(w.v, w.e.filename));
    CommandEnterKey(w.e.(mode := Command, cmd := Typed("wq")), 0, CanSave(w.v, w.e.filename));
    if CanSave(w.v, w.e.filename) { StoredHolds(w, rest); }
    CommandsDiffer();
    hide Key, Good, F.Valid, CanSave, Text, Typed, Saves;
  }

  /** `:q!` leaves without touching the volume, and so does `:q` unless something is unsaved. */
  lemma QuitCommands(w: World, rest: Garbage)
    requires Editing(w)
    ensures Carried(w, "q!", rest) == w.(e := w.e.(mode := Command, cmd := Typed("q!"), dirty := -9999))
    ensures Carried(w, "q", rest) ==
            if w.e.dirty > 0 then w.(e := w.e.(cmd := Typed("q")))
            else w.(e := w.e.(mode := Command, cmd := Typed("q"), dirty := -9999))
  {
    CommandTyped(w, "q!", rest);
    CommandTyped(w, "q", rest);
    CommandEnterKey(w.e.(mode := Command, cmd := Typed("q!")), 0, CanSave(w.v, w.e.filename));
    CommandEnterKey(w.e.(mode := Command, cmd := Typed("q")), 0, CanSave(w.v, w.e.filename));
    CommandsDiffer();
    hide Key, Good, F.Valid, CanSave, Text, Typed, Saves;
  }

  /** Any other command, up to 78 printable bytes, does nothing. */
  lemma UnknownCommand(w: World, text: string, rest: Garbage)
    requires Editing(w) && |text| <= 78 && forall i :: 0 <= i < |text| ==> 32 <= text[i] as int < 127
    requires text != "q" && text != "q!" && text != "w" && text != "wq"
    ensures Carried(w, text, rest) == w.(e := w.e.(cmd := Typed(text)))
  {
    CommandTyped(w, text, rest);
    CommandEnterKey(w.e.(mode := Command, cmd := Typed(text)), 0, CanSave(w.v, w.e.filename));
    TypedSame(text, "q");
    TypedSame(text, "q!");
    TypedSame(text, "w");
    TypedSame(text, "wq");
    hide Key, Good, F.Valid, CanSave, Text, Typed, Saves;
  }

  lemma TypedSame(a: string, b: string)
    requires forall i :: 0 <= i < |a| ==> a[i] as int < 256
    requires forall i :: 0 <= i < |b| ==> b[i] as int < 256
    ensures Typed(a) == Typed(b) ==> a == b
  {
    if Typed(a) == Typed(b) {
      forall i | 0 <= i < |a| ensures a[i] == b[i] {
        assert Typed(a)[i] == a[i] as byte && Typed(b)[i] == b[i] as byte;
      }
    }
  }

  lemma CommandsDiffer()
    ensures Typed("q") != Typed("w") && Typed("q") != Typed("wq") && Typed("q") != Typed("q!")
    ensures Typed("q!") != Typed("wq") && Typed("q!") != Typed("w") && Typed("w") != Typed("wq")
  {
    assert Typed("q")[0] != Typed("w")[0] && Typed("q!")[0] != Typed("wq")[0];
    assert |Typed("q")| == |Typed("w")| == 1 && |Typed("q!")| == |Typed("wq")| == 2;
  }

  lemma StoredHolds(w: World, rest: Garbage)
    requires Good(w) && CanSave(w.v, w.e.filename)
    ensures HoldsText(EditorModel.Stored(w.v, w.e, rest), w.e)
  {
    var t := Bounded(Text(w.e.lines));
    hide F.Valid, Text, Split, OpenLines;
    SaveThenOpen(w.v, w.e.filename, Block(t, rest), t);
  }
}
