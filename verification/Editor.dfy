/**
  The editor of `fs/ed.c`: row buffers with a size and a terminating NUL, and the
  key loop that drives them. Buffers are sequences replaced on update; a `memmove`
  inside one is the function `Moved`, which `Bytes.MemMove` computes in place.
 */
module Editor {
  import opened Bytes
  import opened Common
  import opened EditorModel
  import F = EasyFsModel
  import EasyFs

  /** `erow`: the first `size` bytes of the buffer, then a NUL, then whatever the allocation holds. */
  datatype Row = Row(size: nat, chars: seq<byte>)

  predicate Terminated(r: Row) {
    r.size < |r.chars| && r.chars[r.size] == 0
  }

  function Content(r: Row): Line
    requires Terminated(r)
  {
    r.chars[..r.size]
  }

  ghost predicate RowsOk(rows: seq<Row>, n: nat) {
    n <= |rows| && forall i :: 0 <= i < n ==> Terminated(rows[i])
  }

  ghost function LinesOf(rows: seq<Row>, n: nat): (r: seq<Line>)
    requires RowsOk(rows, n)
    ensures |r| == n
  {
    seq(n, i requires 0 <= i < n => Content(rows[i]))
  }

  // ------------------------------------------------------- buffers of a row

  /** `realloc` to at least `n` elements; what was there stays in front. */
  method Grow<T>(a: seq<T>, n: nat, filler: T) returns (r: seq<T>)
    ensures |r| >= n && |r| >= |a| && r[..|a|] == a
  {
    r := if |a| >= n then a else a + seq(n - |a|, _ => filler);
  }

  /** `editorRowInsertChar` on one row. */
  method RowInsertChar(row: Row, at: int, c: byte) returns (r: Row)
    requires Terminated(row)
    ensures Terminated(r)
    ensures Content(r) == LineInsert(Content(row), if at < 0 || at > row.size then row.size else at, c)
  {
    var k := if at < 0 || at > row.size then row.size else at;
    var chars := Grow(row.chars, row.size + 2, 0);
    assert chars[..row.size] == Content(row) && chars[row.size] == 0;
    ghost var was := chars;
    chars := Moved(chars, k + 1, k, row.size - k + 1);
    assert chars[row.size + 1] == was[row.size];
    chars := chars[k := c];
    r := Row(row.size + 1, chars);
    assert chars[..row.size + 1] == was[..k] + [c] + was[k..row.size];
  }

  /** `editorRowDelChar` on one row. */
  method RowDelChar(row: Row, at: int) returns (r: Row)
    requires Terminated(row)
    ensures Terminated(r)
    ensures if at < 0 || at >= row.size then r == row else Content(r) == LineDelete(Content(row), at)
  {
    if at < 0 || at >= row.size {
      return row;
    }
    var chars := Moved(row.chars, at, at + 1, row.size - at);
    assert chars[row.size - 1] == row.chars[row.size];
    r := Row(row.size - 1, chars);
    assert chars[..row.size - 1] == row.chars[..at] + row.chars[at + 1..row.size];
  }

  /** `editorRowAppendString` on one row. */
  method RowAppendString(row: Row, s: seq<byte>) returns (r: Row)
    requires Terminated(row)
    ensures Terminated(r) && Content(r) == Content(row) + s
  {
    var chars := Grow(row.chars, row.size + |s| + 1, 0);
    assert chars[..row.size] == Content(row);
    chars := chars[..row.size] + s + chars[row.size + |s|..];
    chars := chars[row.size + |s| := 0];
    r := Row(row.size + |s|, chars);
  }

  // ------------------------------------------------------ the array of rows

  lemma MovedInsert<T>(rows: seq<T>, n: nat, grown: seq<T>, at: nat, r: T)
    requires at <= n <= |rows| && |grown| >= n + 1 && |grown| >= |rows| && grown[..|rows|] == rows
    ensures var now := Moved(grown, at + 1, at, n - at)[at := r];
            |now| >= n + 1 && now[at] == r
            && (forall i :: 0 <= i < at ==> now[i] == rows[i])
            && (forall i :: at < i <= n ==> now[i] == rows[i - 1])
  {
    assert forall i :: 0 <= i < |rows| ==> grown[i] == grown[..|rows|][i];
  }

  lemma LinesAfterInsert(rows: seq<Row>, n: nat, grown: seq<Row>, at: nat, r: Row)
    requires RowsOk(rows, n) && at <= n && Terminated(r)
    requires |grown| >= n + 1 && |grown| >= |rows| && grown[..|rows|] == rows
    ensures var now := Moved(grown, at + 1, at, n - at)[at := r];
            RowsOk(now, n + 1) && LinesOf(now, n + 1) == RowsInsert(LinesOf(rows, n), at, Content(r))
  {
    hide Moved, RowsInsert;
    MovedInsert(rows, n, grown, at, r);
    var now, lines := Moved(grown, at + 1, at, n - at)[at := r], LinesOf(rows, n);
    assert RowsOk(now, n + 1);
    RowsInsertAt(lines, at, Content(r), at);
    forall i | 0 <= i <= n ensures LinesOf(now, n + 1)[i] == RowsInsert(lines, at, Content(r))[i] {
      RowsInsertAt(lines, at, Content(r), i);
    }
  }

  lemma LinesAfterDelete(rows: seq<Row>, n: nat, at: nat)
    requires RowsOk(rows, n) && at < n
    ensures var now := Moved(rows, at, at + 1, n - at - 1);
            RowsOk(now, n - 1) && LinesOf(now, n - 1) == RowsDelete(LinesOf(rows, n), at)
  {
    var now := Moved(rows, at, at + 1, n - at - 1);
    assert forall i :: 0 <= i < at ==> now[i] == rows[i];
    assert forall i :: at <= i < n - 1 ==> now[i] == rows[i + 1];
  }

  lemma LinesAfterUpdate(rows: seq<Row>, n: nat, at: nat, r: Row)
    requires RowsOk(rows, n) && at < n && Terminated(r)
    ensures RowsOk(rows[at := r], n) && LinesOf(rows[at := r], n) == LinesOf(rows, n)[at := Content(r)]
  {}

  class TextEditor {
    const fs: EasyFs.FileSystem
    var rows: seq<Row>
    var numrows: nat
    var cx: nat
    var cy: nat
    var mode: Mode
    var dirty: int
    var cmd: seq<byte>
    var yank: seq<byte>
    var filename: F.Name

    ghost predicate Valid()
      reads this, fs.disk
    {
      RowsOk(rows, numrows) && 0 !in filename && fs.Formatted() && F.Valid(fs.View())
    }

    ghost function View(): Ed
      requires RowsOk(rows, numrows)
      reads this
    {
      Ed(LinesOf(rows, numrows), cx, cy, mode, dirty, cmd, yank, filename)
    }

    /** `initEditor`; the yank buffer is static and survives. */
    constructor (fs: EasyFs.FileSystem, yank: seq<byte>)
      requires fs.Formatted() && F.Valid(fs.View())
      ensures this.fs == fs && Valid() && View() == Initial(yank)
    {
      this.fs := fs;
      rows, numrows, cx, cy := [], 0, 0, 0;
      mode, dirty, cmd, this.yank, filename := Normal, 0, [], yank, [];
    }

    /** `editorInsertRow`. */
    method InsertRow(at: int, s: seq<byte>)
      requires RowsOk(rows, numrows)
      modifies this`rows, this`numrows
      ensures RowsOk(rows, numrows)
      ensures var was := old(View());
              View() == was.(lines := if at < 0 then was.lines else RowsInsert(was.lines, at, s))
    {
      if at < 0 || at > numrows {
        return;
      }
      var chars := Grow(s, |s| + 1, 0);
      var row := Row(|s|, chars[|s| := 0]);
      var grown := Grow(rows, numrows + 1, row);
      LinesAfterInsert(rows, numrows, grown, at, row);
      hide LinesOf, RowsOk, RowsInsert, Moved;
      rows := Moved(grown, at + 1, at, numrows - at)[at := row];
      numrows := numrows + 1;
    }

    /** `editorDelRow`. */
    method DelRow(at: nat)
      requires RowsOk(rows, numrows)
      modifies this`rows, this`numrows, this`dirty
      ensures RowsOk(rows, numrows)
      ensures View() == EditorModel.DelRow(old(View()), at)
    {
      if at >= numrows {
        return;
      }
      LinesAfterDelete(rows, numrows, at);
      hide LinesOf, RowsOk, RowsDelete;
      rows := Moved(rows, at, at + 1, numrows - at - 1);
      numrows := numrows - 1;
      dirty := 1;
    }

    /** Stores an edited row. */
    method PutRow(at: nat, r: Row)
      requires RowsOk(rows, numrows) && at < numrows && Terminated(r)
      modifies this`rows
      ensures RowsOk(rows, numrows)
      ensures View() == old(View()).(lines := old(View()).lines[at := Content(r)])
    {
      LinesAfterUpdate(rows, numrows, at, r);
      rows := rows[at := r];
    }

    /** `editorInsertChar`. */
    method InsertChar(c: byte)
      requires RowsOk(rows, numrows) && OnText(View())
      modifies this`rows, this`numrows, this`dirty, this`cx
      ensures RowsOk(rows, numrows) && View() == EditorModel.InsertChar(old(View()), c)
    {
      if cy == numrows {
        InsertRow(numrows, []);
      }
      assert RowsInsert(old(View()).lines, old(numrows), []) == old(View()).lines + [[]];
      var r := RowInsertChar(rows[cy], cx, c);
      assert Content(rows[cy]) == View().lines[cy];
      PutRow(cy, r);
      dirty := 1;
      cx := cx + 1;
    }

    /** `editorInsertNewline`. */
    method InsertNewline()
      requires RowsOk(rows, numrows) && OnText(View())
      modifies this`rows, this`numrows, this`cx, this`cy
      ensures RowsOk(rows, numrows) && View() == EditorModel.InsertNewline(old(View()))
    {
      if cx == 0 {
        InsertRow(cy, []);
      } else {
        hide RowsInsert;
        RowsInsertAt(View().lines, cy + 1, View().lines[cy][cx..], cy);
        var row := rows[cy];
        assert Content(row) == View().lines[cy];
        InsertRow(cy + 1, row.chars[cx..row.size]);
        assert View().lines[cy] == Content(row);
        var r := rows[cy];
        r := r.(size := cx, chars := r.chars[cx := 0]);
        assert Content(r) == Content(row)[..cx];
        PutRow(cy, r);
      }
      cy := cy + 1;
      cx := 0;
    }

    /** `editorDelChar`. */
    method DelChar()
      requires RowsOk(rows, numrows) && OnText(View())
      modifies this`rows, this`numrows, this`cx, this`cy, this`dirty
      ensures RowsOk(rows, numrows) && View() == EditorModel.DelChar(old(View()))
    {
      if cy == numrows || (cx == 0 && cy == 0) {
        return;
      }
      assert Content(rows[cy]) == View().lines[cy];
      if cx > 0 {
        var r := RowDelChar(rows[cy], cx - 1);
        PutRow(cy, r);
        cx := cx - 1;
      } else {
        assert Content(rows[cy - 1]) == View().lines[cy - 1];
        cx := rows[cy - 1].size;
        var r := RowAppendString(rows[cy - 1], rows[cy].chars[..rows[cy].size]);
        PutRow(cy - 1, r);
        dirty := 1;
        DelRow(cy);
        cy := cy - 1;
      }
      dirty := 1;
    }

    /** `editorYankLine`. */
    method YankLine()
      requires RowsOk(rows, numrows)
      modifies this`yank
      ensures View() == EditorModel.YankLine(old(View()))
    {
      if cy >= numrows {
        return;
      }
      var row := rows[cy];
      assert Content(row) == View().lines[cy];
      yank := row.chars[..if row.size < MAX_TEXT then row.size else MAX_TEXT];
    }

    /** `editorPasteLine`. */
    method PasteLine()
      requires RowsOk(rows, numrows)
      modifies this`rows, this`numrows, this`cx, this`cy
      ensures RowsOk(rows, numrows) && View() == EditorModel.PasteLine(old(View()))
    {
      if |yank| == 0 {
        return;
      }
      InsertRow(cy + 1, yank);
      cy := cy + 1;
      cx := 0;
    }

    /** `editorDeleteLine`. */
    method DeleteLine()
      requires RowsOk(rows, numrows)
      modifies this`rows, this`numrows, this`cx, this`cy, this`dirty, this`yank
      ensures RowsOk(rows, numrows) && View() == EditorModel.DeleteLine(old(View()))
    {
      if numrows == 0 {
        return;
      }
      YankLine();
      DelRow(cy);
      if cy >= numrows && cy > 0 {
        cy := cy - 1;
      }
      cx := 0;
    }

    /** `editorMoveCursor`. */
    method MoveCursor(key: int)
      requires RowsOk(rows, numrows) && OnText(View())
      modifies this`cx, this`cy
      ensures View() == EditorModel.MoveCursor(old(View()), key)
    {
      assert forall i :: 0 <= i < numrows ==> |View().lines[i]| == rows[i].size;
      assert RowsOk(rows, numrows);
      hide LinesOf, RowsOk;
      if key == 'h' as int || key == ARROW_LEFT {
        if cx > 0 {
          cx := cx - 1;
        } else if cy > 0 {
          cy := cy - 1;
          cx := rows[cy].size;
        }
      } else if key == 'l' as int || key == ARROW_RIGHT {
        if cy < numrows && cx < rows[cy].size {
          cx := cx + 1;
        }
      } else if key == 'k' as int || key == ARROW_UP {
        if cy > 0 {
          cy := cy - 1;
        }
      } else if key == 'j' as int || key == ARROW_DOWN {
        if cy < numrows - 1 {
          cy := cy + 1;
        }
      }
      var rowLen := if cy < numrows then rows[cy].size else 0;
      if cx > rowLen {
        cx := rowLen;
      }
    }

    /** The loop of `editorSave` that lays out the text. */
    method FillText(buf: array<byte>) returns (pos: nat)
      requires RowsOk(rows, numrows) && buf.Length == F.BLOCK_SIZE
      modifies buf
      ensures RowsOk(rows, numrows) && pos <= MAX_TEXT && buf[..pos] == Bounded(Text(View().lines))
    {
      hide LinesOf, Text, Bounded, Terminated, Content;
      ghost var lines := View().lines;
      var i := 0;
      pos := 0;
      NoText(lines);
      while i < numrows && pos < MAX_TEXT
        invariant 0 <= i <= numrows && pos <= MAX_TEXT && View().lines == lines && RowsOk(rows, numrows)
        invariant buf[..pos] == Bounded(Text(lines[..i]))
        decreases numrows - i
      {
        BoundedNext(lines, i);
        LineIs(i);
        pos := CopyRow(rows[i], buf, pos);
        i := i + 1;
      }
      BoundedFull(lines, i);
    }

    /** One row of the save loop: as much of it as fits, then a newline if there is room. */
    method CopyRow(row: Row, buf: array<byte>, at: nat) returns (pos: nat)
      requires Terminated(row) && buf.Length == F.BLOCK_SIZE && at < MAX_TEXT
      modifies buf
      ensures pos <= MAX_TEXT
      ensures var s, space := Content(row), MAX_TEXT - at;
              buf[..pos] == old(buf[..at]) + if |s| < space then s + [NL] else s[..space]
    {
      var space := MAX_TEXT - at;
      var copy := if row.size < space then row.size else space;
      MemCpy(buf, at, row.chars[..copy]);
      assert row.chars[..copy] == Content(row)[..copy];
      pos := at + copy;
      if pos < MAX_TEXT {
        buf[pos] := NL;
        pos := pos + 1;
      }
    }

    lemma LineIs(i: nat)
      requires RowsOk(rows, numrows) && i < numrows
      ensures Terminated(rows[i]) && View().lines[i] == Content(rows[i])
    {}

    lemma NoText(lines: seq<Line>)
      ensures Bounded(Text(lines[..0])) == []
    {}

    /** `editorSave`; `block` is the buffer it writes. */
    method Save() returns (ghost block: seq<byte>)
      requires Valid()
      modifies this`dirty, fs.disk
      ensures Valid()
      ensures View() == old(View()).(dirty := if CanSave(old(fs.View()), filename) then 0 else old(dirty))
      ensures var t := Bounded(Text(View().lines));
              Holds(block, t) && fs.View() == SaveTo(old(fs.View()), filename, block, |t|)
    {
      hide F.Valid, LinesOf, Text, Bounded, EasyFs.FormattedBytes, EasyFs.ViewOf;
      var buf := new byte[F.BLOCK_SIZE];
      var pos := FillText(buf);
      buf[pos] := 0;
      block := buf[..];
      ghost var t := Bounded(Text(View().lines));
      assert block[..pos] == t;
      if |filename| == 0 {
        return;
      }
      var ok := StoreBlock(buf, pos, t);
      if ok {
        dirty := 0;
      }
    }

    /** The file-system calls of `editorSave`: create the file if it is missing, look it up again, write. */
    method StoreBlock(buf: array<byte>, pos: nat, ghost t: seq<byte>) returns (ok: bool)
      requires fs.Formatted() && F.Valid(fs.View()) && 0 !in filename && filename != []
      requires buf != fs.disk && Holds(buf[..], t) && |t| == pos
      modifies fs.disk
      ensures fs.Formatted() && F.Valid(fs.View()) && ok == CanSave(old(fs.View()), filename)
      ensures fs.View() == SaveTo(old(fs.View()), filename, buf[..], pos)
    {
      assert fs.disk.Length == EasyFs.DISK_SIZE;
      hide F.Valid, F.Write, F.WriteAt, F.Find, F.UsedSlot, Holds, EasyFs.FormattedBytes, EasyFs.ViewOf, CanSave,
          Ensured;
      ghost var bytes := buf[..];
      EnsuredFound(fs.View(), filename);
      var entry := EnsureFile();
      ghost var u := fs.View();
      WriteIs(u, bytes, pos);
      if entry >= 0 {
        WriteEntry(entry, buf, pos);
      }
      ok := entry >= 0;
    }

    lemma WriteIs(u: F.Volume, buf: seq<byte>, n: nat)
      requires F.Valid(u) && n < F.BLOCK_SIZE <= |buf|
      ensures F.Valid(F.Write(u, filename, buf, n).0)
      ensures match F.Find(u.dir, filename)
              case None => F.Write(u, filename, buf, n).0 == u
              case Some(i) => i < |u.dir| && F.FIRST_DATA_BLOCK <= u.dir[i].first < F.TOTAL_BLOCKS
                              && F.Write(u, filename, buf, n).0 == F.WriteAt(u, i, buf, n)
    {
      F.WriteKeeps(u, filename, buf, n);
      if F.Find(u.dir, filename).Some? { F.FoundInRange(u, filename); }
    }

    /** Look up, create if missing, look up again. */
    method EnsureFile() returns (entry: int)
      requires fs.Formatted() && F.Valid(fs.View()) && 0 !in filename && filename != []
      modifies fs.disk
      ensures fs.Formatted() && F.Valid(fs.View()) && fs.View() == Ensured(old(fs.View()), filename)
      ensures entry == match F.Find(fs.View().dir, filename) case None => -1 case Some(i) => i
    {
      hide F.Valid, F.Create, EasyFs.FormattedBytes, EasyFs.ViewOf;
      entry := fs.FindFile(filename);
      if entry < 0 {
        var _ := fs.CreateFile(filename);
      }
      entry := fs.FindFile(filename);
    }

    /** `fs_write_block` on the entry's block, then its new size. */
    method WriteEntry(entry: nat, buf: array<byte>, pos: nat)
      requires fs.Formatted() && buf != fs.disk && buf.Length == F.BLOCK_SIZE && pos <= MAX_TEXT
      requires entry < F.MAX_DIR_ENTRIES && F.FIRST_DATA_BLOCK <= fs.View().dir[entry].first < F.TOTAL_BLOCKS
      modifies fs.disk
      ensures fs.Formatted()
      ensures fs.View() == F.WriteAt(old(fs.View()), entry, buf[..], pos)
    {
      assert fs.disk.Length == EasyFs.DISK_SIZE;
      hide F.Overlay, F.OverlayBlocks, EasyFs.FormattedBytes, EasyFs.ViewOf;
      ghost var s := fs.disk[..];
      var first := fs.EntryFirst(entry);
      fs.WriteBlock(first, buf, 0);
      assert buf[0..0 + F.BLOCK_SIZE] == buf[..];
      EasyFs.OneBlockWritten(s, fs.disk[..], first, buf[..]);
      F.OverlayOneBlock(old(fs.View()).data, first, buf[..], pos);
      fs.SetSize(entry, pos);
    }

    /** The pieces of `s` that end before position `j`, as rows; the last piece is still open. */
    ghost predicate Loaded(lines: seq<Line>, base: seq<Line>, s: seq<byte>, start: nat)
      requires start <= |s|
    {
      var p := Split(s);
      lines == base + p[..|p| - 1] && s[start..] == p[|p| - 1]
    }

    lemma LoadedNext(lines: seq<Line>, base: seq<Line>, s: seq<byte>, start: nat, c: byte)
      requires start <= |s| && Loaded(lines, base, s, start)
      ensures !EndsLine(c) ==> Loaded(lines, base, s + [c], start)
      ensures EndsLine(c) ==> Loaded(lines + [s[start..]], base, s + [c], |s| + 1)
    {
      assert (s + [c])[..|s|] == s && (s + [c])[start..] == s[start..] + [c];
      var p := Split(s);
      assert p == p[..|p| - 1] + [p[|p| - 1]];
      if EndsLine(c) { assert (p + [[]])[..|p|] == p; }
    }

    /** The splitting loop of `editorOpen`, over a buffer with a NUL at `len`. */
    method LoadRows(buf: array<byte>, len: nat)
      requires RowsOk(rows, numrows) && len < buf.Length && buf[len] == 0
      modifies this`rows, this`numrows
      ensures RowsOk(rows, numrows)
      ensures View() == old(View()).(lines := old(View()).lines + Split(buf[..len]))
    {
      hide LinesOf, Split, RowsOk;
      ghost var base := View().lines;
      var start, j := 0, 0;
      NoneLoaded(base, buf[..0]);
      while j <= len
        invariant 0 <= j <= len + 1 && RowsOk(rows, numrows) && start <= j
        invariant View() == old(View()).(lines := View().lines)
        invariant j <= len ==> Loaded(View().lines, base, buf[..j], start)
        invariant j > len ==> View().lines == base + Split(buf[..len])
      {
        ghost var s, lines := buf[..j], View().lines;
        LoadedNext(lines, base, s, start, buf[j]);
        assert buf[..j + 1] == s + [buf[j]];
        if buf[j] == NL || buf[j] == 0 {
          assert buf[start..j] == s[start..];
          InsertRow(numrows, buf[start..j]);
          AppendRow(lines, s[start..]);
          if j == len { LastRow(lines, base, s, start); }
          start := j + 1;
        }
        j := j + 1;
      }
    }

    lemma NoneLoaded(base: seq<Line>, s: seq<byte>)
      requires s == []
      ensures Loaded(base, base, s, 0)
    {
      assert Split([])[..0] == [];
    }

    lemma AppendRow(lines: seq<Line>, s: Line)
      ensures RowsInsert(lines, |lines|, s) == lines + [s]
    {}

    lemma LastRow(lines: seq<Line>, base: seq<Line>, s: seq<byte>, start: nat)
      requires start <= |s| && Loaded(lines, base, s, start)
      ensures lines + [s[start..]] == base + Split(s)
    {
      hide Split;
      var p := Split(s);
      assert p == p[..|p| - 1] + [p[|p| - 1]];
    }

    /** `editorOpen`, for a file whose size fits a C `int`. */
    method Open(name: F.Name)
      requires Valid() && 0 !in name
      requires var f := F.Find(fs.View().dir, name); f.Some? ==> fs.View().dir[f.value].size < 0x8000_0000
      modifies this`rows, this`numrows, this`dirty, this`filename
      ensures Valid()
      ensures var v, e := fs.View(), old(View());
              View() == e.(lines := e.lines + OpenLines(v, name), filename := if |name| <= 63 then name else name[..63],
                           dirty := if OpenLines(v, name) == [] then e.dirty else 0)
    {
      hide F.Valid, F.Stretch, F.Find, EasyFs.FormattedBytes, EasyFs.ViewOf, Split, LinesOf;
      filename := if |name| <= 63 then name else name[..63];
      assert fs.disk.Length == EasyFs.DISK_SIZE by { Disk(); }
      ghost var v := fs.View();
      var entry := fs.FindFile(name);
      if entry < 0 {
        return;
      }
      F.FoundInRange(v, name);
      var size := fs.EntrySize(entry);
      if size == 0 {
        return;
      }
      var buf := new byte[F.BLOCK_SIZE];
      var first := fs.EntryFirst(entry);
      fs.ReadBlock(first, buf, 0);
      var len := if size > MAX_TEXT then MAX_TEXT else size;
      BlockStretch(first, len);
      assert buf[..len] == F.Stretch(v.data, first, len);
      ghost var front := buf[..len];
      buf[len] := 0;
      assert buf[..len] == front;
      LoadRows(buf, len);
      dirty := 0;
    }

    lemma Disk()
      requires fs.Formatted()
      ensures fs.disk.Length == EasyFs.DISK_SIZE
    {}

    lemma BlockStretch(first: nat, len: nat)
      requires fs.disk.Length == EasyFs.DISK_SIZE && F.FIRST_DATA_BLOCK <= first < F.TOTAL_BLOCKS && len <= F.BLOCK_SIZE
      ensures fs.disk[first * F.BLOCK_SIZE..first * F.BLOCK_SIZE + F.BLOCK_SIZE][..len]
              == F.Stretch(fs.View().data, first, len)
    {
      EasyFs.DataStretch(fs.disk[..], first, len);
    }

    /** Deleting under the cursor, the `x` of NORMAL mode. */
    method CutChar()
      requires RowsOk(rows, numrows) && OnText(View()) && mode == Normal
      modifies this`rows, this`cx, this`dirty
      ensures RowsOk(rows, numrows) && View() == NormalKey(old(View()), 'x' as int, 0)
    {
      if cy < numrows {
        assert Content(rows[cy]) == View().lines[cy];
        if cx < rows[cy].size {
          var r := RowDelChar(rows[cy], cx);
          PutRow(cy, r);
          dirty := 1;
          assert rows[cy].size == |View().lines[cy]| == |LineDelete(old(View()).lines[cy], cx)| by { LineIs(cy); }
          if cx >= rows[cy].size && cx > 0 {
            cx := cx - 1;
          }
        }
      }
    }

    /** The NORMAL part of `editorProcessKeypress`. */
    method NormalPress(c: int, next: int)
      requires RowsOk(rows, numrows) && OnText(View()) && mode == Normal
      modifies this`rows, this`numrows, this`cx, this`cy, this`dirty, this`yank, this`mode, this`cmd
      ensures RowsOk(rows, numrows) && View() == NormalKey(old(View()), c, next)
    {
      ghost var e := View();
      assert cy < numrows ==> rows[cy].size == |e.lines[cy]|;
      hide LinesOf, EditorModel.InsertNewline, EditorModel.DeleteLine, EditorModel.MoveCursor, EditorModel.YankLine,
           EditorModel.PasteLine;
      if c == 'h' as int || c == 'j' as int || c == 'k' as int || c == 'l' as int || ARROW_UP <= c <= ARROW_RIGHT {
        MoveCursor(c);
      } else if c == 'i' as int {
        mode := Insert;
      } else if c == 'a' as int {
        mode := Insert;
        if cy < numrows && cx < rows[cy].size {
          cx := cx + 1;
        }
      } else if c == 'o' as int {
        if cy < numrows {
          cx := rows[cy].size;
        }
        InsertNewline();
        mode := Insert;
      } else if c == 'O' as int {
        cx := 0;
        InsertRow(cy, []);
        mode := Insert;
      } else if c == 'x' as int {
        CutChar();
      } else if c == 'd' as int {
        if next == 'd' as int {
          DeleteLine();
        }
      } else if c == 'y' as int {
        if next == 'y' as int {
          YankLine();
        }
      } else if c == 'p' as int {
        PasteLine();
      } else if c == ':' as int {
        mode := Command;
        cmd := [];
      }
    }

    /** The INSERT part of `editorProcessKeypress`. */
    method InsertPress(c: int)
      requires RowsOk(rows, numrows) && OnText(View())
      modifies this`rows, this`numrows, this`cx, this`cy, this`dirty, this`mode
      ensures RowsOk(rows, numrows) && View() == InsertKey(old(View()), c)
    {
      hide LinesOf, EditorModel.InsertNewline, EditorModel.DelChar, EditorModel.InsertChar;
      if c == ESC {
        mode := Normal;
        if cx > 0 {
          cx := cx - 1;
        }
      } else if c == NEWLINE {
        InsertNewline();
        dirty := 1;
      } else if c == BACKSPACE || c == RUBOUT {
        DelChar();
      } else if c >= 32 && c < 127 {
        InsertChar(c as byte);
      }
    }

    /** `editorExecCommand` without its messages: -1 leaves the editor. */
    method ExecCommand() returns (r: int, ghost block: seq<byte>)
      requires Valid()
      modifies this`dirty, fs.disk
      ensures Valid() && (r == -1 || r == 0)
      ensures var e := old(View()).(mode := Command); var v := old(fs.View());
              && (r == -1 <==> Quits(e, NEWLINE))
              && View() == old(View()).(dirty := if Saves(e, NEWLINE) && CanSave(v, filename) then 0 else old(dirty))
              && (if Saves(e, NEWLINE)
                  then Holds(block, Bounded(Text(e.lines)))
                       && fs.View() == SaveTo(v, filename, block, |Bounded(Text(e.lines))|)
                  else fs.View() == v)
    {
      hide F.Valid, LinesOf, Text, Bounded, EasyFs.FormattedBytes, EasyFs.ViewOf, SaveTo, CanSave, Holds;
      block := [];
      if cmd == CMD_QUIT {
        return if dirty > 0 then 0 else -1, block;
      }
      if cmd == CMD_FORCE {
        return -1, block;
      }
      if cmd == CMD_WRITE {
        block := Save();
        return 0, block;
      }
      if cmd == CMD_WRITE_QUIT {
        block := Save();
        return -1, block;
      }
      r := 0;
    }

    /** `editorProcessKeypress`: the key, and the one after it for `d` and `y`. */
    method ProcessKeypress(c: int, next: int)
      requires Valid() && OnText(View())
      modifies this, fs.disk
      ensures Valid()
      ensures View() == Key(old(View()), c, next, CanSave(old(fs.View()), old(filename)))
      ensures if Saves(old(View()), c) then Saved(old(fs.View()), old(View()), fs.View())
              else fs.View() == old(fs.View())
    {
      hide F.Valid, LinesOf, RowsOk, Text, Bounded, EasyFs.FormattedBytes, EasyFs.ViewOf, SaveTo, CanSave, Holds,
          NormalKey, InsertKey;
      match mode {
        case Insert => InsertPress(c);
        case Normal => NormalPress(c, next);
        case Command =>
          if c == ESC {
            mode := Normal;
            cmd := [];
          } else if c == NEWLINE {
            var r, block := ExecCommand();
            if r == -1 {
              dirty := QUIT;
            } else {
              mode := Normal;
            }
          } else if c == BACKSPACE || c == RUBOUT {
            if |cmd| > 0 {
              cmd := cmd[..|cmd| - 1];
            }
          } else if c >= 32 && c < 127 && |cmd| < MAX_COMMAND {
            cmd := cmd + [c as byte];
          }
      }
    }
  }
}
