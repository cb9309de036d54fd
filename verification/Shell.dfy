/**
  The shell's line reader and tokeniser (`kernel/Shell.c`) over `strtok` and
  `strchr` (`kernel/string.h`): buffers that grow in steps, NULs written into
  the line in place, and a cursor hidden in a static variable.
 */
module Shell {
  import opened Bytes
  import opened Common
  import KeyboardRing

  const TOK_BUFSIZE: nat := 64
  const RL_BUFSIZE: nat := 1024
  const NO_POINTER: int := -1

  /** LSH_TOK_DELIM: space, tab, carriage return, newline, bell. */
  const DELIM: seq<byte> := [32, 9, 13, 10, 7]

  // ------------------------------------------------------ tokens of a line

  /** The bytes `from..to` of a line. */
  datatype Token = Token(from: nat, to: nat)

  predicate IsDelim(c: byte) {
    c in DELIM
  }

  /** Space, tab, carriage return, newline and bell separate tokens, and nothing else does. */
  lemma DelimsAre(c: byte)
    ensures IsDelim(c) <==> c == ' ' as byte || c == 9 || c == 13 || c == 10 || c == 7
  {}

  function SkipDelims(s: seq<byte>, i: nat): (r: nat)
    requires i <= |s|
    ensures i <= r <= |s| && (forall k :: i <= k < r ==> IsDelim(s[k])) && (r < |s| ==> !IsDelim(s[r]))
    decreases |s| - i
  {
    if i < |s| && IsDelim(s[i]) then SkipDelims(s, i + 1) else i
  }

  function SkipWord(s: seq<byte>, i: nat): (r: nat)
    requires i <= |s|
    ensures i <= r <= |s| && (forall k :: i <= k < r ==> !IsDelim(s[k])) && (r < |s| ==> IsDelim(s[r]))
    ensures i < |s| && !IsDelim(s[i]) ==> i < r
    decreases |s| - i
  {
    if i < |s| && !IsDelim(s[i]) then SkipWord(s, i + 1) else i
  }

  /** The tokens that begin at or after `i`. */
  function Tokens(s: seq<byte>, i: nat): seq<Token>
    requires i <= |s|
    decreases |s| - i
  {
    var a := SkipDelims(s, i);
    if a == |s| then [] else [Token(a, SkipWord(s, a))] + Tokens(s, SkipWord(s, a))
  }

  /** A maximal delimiter-free run. */
  predicate IsRun(s: seq<byte>, t: Token) {
    && t.from < t.to <= |s|
    && (forall k :: t.from <= k < t.to ==> !IsDelim(s[k]))
    && (t.from > 0 ==> IsDelim(s[t.from - 1]))
    && (t.to < |s| ==> IsDelim(s[t.to]))
  }

  /** A place where no run can be cut in two. */
  predicate Boundary(s: seq<byte>, i: nat) {
    i <= |s| && (i == 0 || i == |s| || IsDelim(s[i - 1]) || IsDelim(s[i]))
  }

  /** The tokens are in order and never touch, so the NUL after one hits no other. */
  lemma {:induction false} TokensOrdered(s: seq<byte>, i: nat, j: nat, k: nat)
    requires i <= |s| && j < k < |Tokens(s, i)|
    ensures Tokens(s, i)[j].from < Tokens(s, i)[j].to < Tokens(s, i)[k].from
    decreases |s| - i
  {
    var a := SkipDelims(s, i);
    var b := SkipWord(s, a);
    TokensFrom(s, b, k - 1);
    if j > 0 { TokensOrdered(s, b, j - 1, k - 1); }
  }

  /** Tokens after `b` start at or after `b`, and strictly after it if `b` holds a delimiter. */
  lemma {:induction false} TokensFrom(s: seq<byte>, b: nat, k: nat)
    requires b <= |s| && k < |Tokens(s, b)|
    ensures b <= Tokens(s, b)[k].from < Tokens(s, b)[k].to <= |s|
    ensures b < |s| && IsDelim(s[b]) ==> b < Tokens(s, b)[k].from
    decreases |s| - b
  {
    var a := SkipDelims(s, b);
    if k > 0 { TokensFrom(s, SkipWord(s, a), k - 1); }
  }

  /** Every token is a maximal run. */
  lemma {:induction false} TokensAreRuns(s: seq<byte>, i: nat, k: nat)
    requires Boundary(s, i) && k < |Tokens(s, i)|
    ensures IsRun(s, Tokens(s, i)[k])
    decreases |s| - i
  {
    var a := SkipDelims(s, i);
    var b := SkipWord(s, a);
    if k > 0 { TokensAreRuns(s, b, k - 1); }
  }

  /** Every maximal run is a token. */
  lemma {:induction false} RunsAreTokens(s: seq<byte>, i: nat, t: Token)
    requires i <= |s| && IsRun(s, t) && i <= t.from
    ensures t in Tokens(s, i)
    decreases |s| - i
  {
    var a := SkipDelims(s, i);
    var b := SkipWord(s, a);
    if t.from < b {
      assert !IsDelim(s[t.from]) && (t.from > 0 ==> IsDelim(s[t.from - 1]));
      assert t.from == a;
      assert t.to < |s| ==> IsDelim(s[t.to]);
      assert b < |s| ==> IsDelim(s[b]);
      assert t.to == b;
    } else {
      RunsAreTokens(s, b, t);
    }
  }

  /** Skipping the delimiter after a token loses nothing. */
  lemma TokensPastDelim(s: seq<byte>, b: nat)
    requires b < |s| && IsDelim(s[b])
    ensures Tokens(s, b) == Tokens(s, b + 1)
  {}

  // ------------------------------------------------------- string.h routines

  /** `strchr` on a string without NUL: the position of the first `c`, or NULL. */
  method StrChr(s: seq<byte>, c: byte) returns (r: int)
    ensures r == NO_POINTER <==> c !in s
    ensures r != NO_POINTER ==> 0 <= r < |s| && s[r] == c && c !in s[..r]
  {
    r := 0;
    while r < |s|
      invariant 0 <= r <= |s| && c !in s[..r]
    {
      if s[r] == c {
        return;
      }
      r := r + 1;
    }
    r := NO_POINTER;
  }

  /** The first `n` tokens stand in the bytes `d` as C strings. */
  ghost predicate CutIn(d: seq<byte>, s: seq<byte>, ts: seq<Token>, n: nat) {
    n <= |ts| && forall j :: 0 <= j < n ==>
      ts[j].from <= ts[j].to <= |s| && ts[j].to < |d|
      && d[ts[j].from..ts[j].to] == s[ts[j].from..ts[j].to] && d[ts[j].to] == 0
  }

  /** The NUL after token `n` disturbs no earlier token. */
  lemma CutOneMore(d: seq<byte>, s: seq<byte>, ts: seq<Token>, n: nat)
    requires n < |ts| && CutIn(d, s, ts, n) && forall j :: 0 <= j < n ==> ts[j].to < ts[n].from
    requires ts[n].from <= ts[n].to <= |s| < |d| && d[ts[n].from..ts[n].to] == s[ts[n].from..ts[n].to]
    ensures CutIn(d[ts[n].to := 0], s, ts, n + 1)
  {
    var e := d[ts[n].to := 0];
    forall j | 0 <= j <= n ensures e[ts[j].from..ts[j].to] == d[ts[j].from..ts[j].to] {}
  }

  /** A token cut out reads as a C string. */
  lemma TokenReads(d: seq<byte>, s: seq<byte>, ts: seq<Token>, n: nat, j: nat)
    requires CutIn(d, s, ts, n) && j < n && 0 !in s
    ensures ts[j].from <= ts[j].to <= |s| && ts[j].to < |d| && CString(d[ts[j].from..]) == s[ts[j].from..ts[j].to]
  {
    var a, b := ts[j].from, ts[j].to;
    var u := d[a..];
    assert u[..b - a] == d[a..b] && u[b - a] == d[b];
    assert 0 !in s[a..b];
    CStringIs(u, b - a);
  }

  /** `strtok` and its hidden static pointer, here an index into the buffer or NO_POINTER. */
  class Tokeniser {
    const buf: array<byte>
    var cursor: int

    /** From the cursor on the buffer still holds the line `s` and its NUL. */
    ghost predicate Intact(s: seq<byte>)
      reads this, buf
    {
      |s| < buf.Length && 0 !in s && buf[|s|] == 0 && NO_POINTER <= cursor <= |s|
      && (cursor >= 0 ==> buf[cursor..|s|] == s[cursor..])
    }

    constructor (buf: array<byte>)
      ensures this.buf == buf && cursor == NO_POINTER
    {
      this.buf := buf;
      cursor := NO_POINTER;
    }

    lemma ByteAt(s: seq<byte>, k: nat)
      requires Intact(s) && 0 <= cursor <= k <= |s|
      ensures buf[k] == if k < |s| then s[k] else 0
      ensures buf[k] == 0 <==> k == |s|
    {
      if k < |s| {
        assert buf[k] == buf[cursor..|s|][k - cursor] == s[cursor..][k - cursor];
        assert s[k] in s;
      }
    }

    /** One call of `strtok(NULL, LSH_TOK_DELIM)`, or the first call once the cursor is set. */
    method StrTok(ghost s: seq<byte>) returns (r: int)
      requires Intact(s)
      modifies this`cursor, buf
      ensures Intact(s)
      ensures old(cursor) == NO_POINTER ==> r == NO_POINTER && cursor == NO_POINTER && buf[..] == old(buf[..])
      ensures old(cursor) >= 0 ==>
                var a := SkipDelims(s, old(cursor));
                if a == |s| then r == NO_POINTER && cursor == NO_POINTER && buf[..] == old(buf[..])
                else var b := SkipWord(s, a);
                     r == a && buf[..] == old(buf[..])[b := 0] && cursor == if b < |s| then b + 1 else NO_POINTER
    {
      if cursor == NO_POINTER {
        return NO_POINTER;
      }
      ghost var start, a := cursor, SkipDelims(s, cursor);
      r := SkipWhile(s, true);
      ByteAt(s, cursor);
      if buf[cursor] == 0 {
        cursor := NO_POINTER;
        return NO_POINTER;
      }
      var from := cursor;
      r := SkipWhile(s, false);
      ByteAt(s, cursor);
      if buf[cursor] != 0 {
        buf[cursor] := 0;
        cursor := cursor + 1;
        assert buf[cursor..|s|] == old(buf[start..|s|])[cursor - start..];
      } else {
        assert buf[..] == old(buf[..])[|s| := 0];
        cursor := NO_POINTER;
      }
      r := from;
    }

    /** The two scanning loops of `strtok`: over delimiters, or over anything else. */
    method SkipWhile(ghost s: seq<byte>, delims: bool) returns (r: int)
      requires Intact(s) && cursor >= 0
      modifies this`cursor
      ensures Intact(s) && r == cursor
      ensures cursor == if delims then SkipDelims(s, old(cursor)) else SkipWord(s, old(cursor))
    {
      ByteAt(s, cursor);
      while buf[cursor] != 0
        invariant Intact(s) && old(cursor) <= cursor <= |s|
        invariant if delims then SkipDelims(s, old(cursor)) == SkipDelims(s, cursor)
                  else SkipWord(s, old(cursor)) == SkipWord(s, cursor)
        decreases |s| - cursor
      {
        ByteAt(s, cursor);
        var p := StrChr(DELIM, buf[cursor]);
        if (p != NO_POINTER) != delims {
          return cursor;
        }
        cursor := cursor + 1;
        assert buf[cursor..|s|] == buf[cursor - 1..|s|][1..];
      }
      ByteAt(s, cursor);
      r := cursor;
    }

    /** The tokens still to come. */
    ghost function Remaining(s: seq<byte>): seq<Token>
      requires cursor <= |s|
      reads this
    {
      if cursor < 0 then [] else Tokens(s, cursor)
    }

    /** One `strtok` call in the tokeniser's loop: the next token is cut out, the earlier ones stay. */
    method NextToken(ghost s: seq<byte>, ghost n: nat) returns (r: int)
      requires Intact(s) && n <= |Tokens(s, 0)| && Remaining(s) == Tokens(s, 0)[n..]
              && CutIn(buf[..], s, Tokens(s, 0), n)
      modifies this`cursor, buf
      ensures Intact(s)
      ensures n == |Tokens(s, 0)| ==> r == NO_POINTER && CutIn(buf[..], s, Tokens(s, 0), n)
      ensures n < |Tokens(s, 0)| ==> r == Tokens(s, 0)[n].from && Remaining(s) == Tokens(s, 0)[n + 1..]
                                     && CutIn(buf[..], s, Tokens(s, 0), n + 1)
    {
      hide SkipDelims, SkipWord, Tokens, IsDelim;
      ghost var ts, was := Tokens(s, 0), buf[..];
      ComingUp(s, cursor, ts[n..]);
      if n < |ts| {
        assert ts[n..][0] == ts[n] && ts[n..][1..] == ts[n + 1..];
        TokenBytes(s, n);
      }
      r := StrTok(s);
      if n < |ts| {
        forall j | 0 <= j < n ensures ts[j].to < ts[n].from { TokensOrdered(s, 0, j, n); }
        CutOneMore(was, s, ts, n);
      }
    }

    /** What the scan finds first, and what is left after it. */
    lemma ComingUp(s: seq<byte>, c: int, coming: seq<Token>)
      requires c <= |s| && coming == if c < 0 then [] else Tokens(s, c)
      ensures coming == [] <==> c < 0 || SkipDelims(s, c) == |s|
      ensures coming != [] ==>
                var a := SkipDelims(s, c);
                var b := SkipWord(s, a);
                coming[0] == Token(a, b) && coming[1..] == if b < |s| then Tokens(s, b + 1) else []
    {
      if c >= 0 {
        TokensUnfold(s, c);
        hide Tokens, IsDelim;
        if coming != [] {
          var b := SkipWord(s, SkipDelims(s, c));
          if b < |s| { TokensPastDelim(s, b); } else { TokensAtEnd(s); }
        }
      }
    }

    lemma TokensUnfold(s: seq<byte>, c: nat)
      requires c <= |s|
      ensures var a := SkipDelims(s, c);
              var b := SkipWord(s, a);
              Tokens(s, c) == if a == |s| then [] else [Token(a, b)] + Tokens(s, b)
    {}

    /** The first call of `strtok`, which sets the hidden pointer to the line. */
    method FirstToken(ghost s: seq<byte>) returns (token: int)
      requires |s| < buf.Length && 0 !in s && buf[|s|] == 0 && buf[..|s|] == s
      modifies this`cursor, buf
      ensures Intact(s)
      ensures var ts := Tokens(s, 0);
              if ts == [] then token == NO_POINTER
              else token == ts[0].from && Remaining(s) == ts[1..] && CutIn(buf[..], s, ts, 1)
    {
      hide Tokens, IsDelim;
      cursor := 0;
      assert buf[0..|s|] == s[0..];
      assert Tokens(s, 0)[0..] == Tokens(s, 0);
      token := NextToken(s, 0);
    }

    lemma TokensAtEnd(s: seq<byte>)
      ensures Tokens(s, |s|) == []
    {}

    lemma TokenBytes(s: seq<byte>, n: nat)
      requires Intact(s) && n < |Tokens(s, 0)| && Remaining(s) == Tokens(s, 0)[n..]
      ensures var t := Tokens(s, 0)[n]; 0 <= cursor <= t.from < t.to <= |s| && buf[t.from..t.to] == s[t.from..t.to]
    {
      var t := Tokens(s, 0)[n];
      assert t == Remaining(s)[0];
      TokensFrom(s, cursor, 0);
      SubSlice(buf[..], s, cursor, t.from, t.to);
      assert buf[..][cursor..|s|] == buf[cursor..|s|];
    }

    lemma SubSlice(d: seq<byte>, s: seq<byte>, c: nat, i: nat, j: nat)
      requires c <= i <= j <= |s| <= |d| && d[c..|s|] == s[c..]
      ensures d[i..j] == s[i..j]
    {
      forall k | i <= k < j ensures d[k] == s[k] {
        assert d[c..|s|][k - c] == d[k] && s[c..][k - c] == s[k];
      }
    }
  }

  /** The start positions of the tokens, as the pointer array holds them. */
  function Starts(ts: seq<Token>): (r: seq<int>)
    ensures |r| == |ts|
  {
    seq(|ts|, i requires 0 <= i < |ts| => ts[i].from)
  }

  /** `realloc` of the pointer array: `n` slots, the old ones copied. */
  method GrowPointers(from: array<int>, n: nat) returns (r: array<int>)
    requires from.Length <= n
    ensures fresh(r) && r.Length == n && r[..from.Length] == from[..]
  {
    r := new int[n];
    var i := 0;
    while i < from.Length
      invariant 0 <= i <= from.Length && r[..i] == from[..i]
    {
      r[i] := from[i];
      i := i + 1;
    }
  }

  /**
    `lsh_split_line`: the pointer array lists exactly the tokens of the line in
    order, with a NULL after them, and each token reads as a C string. `allocs`
    says how many allocations in a row the heap can still satisfy.
   */
  method SplitLine(line: Tokeniser, ghost s: seq<byte>, allocs: nat) returns (r: Option<array<int>>)
    requires |s| < line.buf.Length && 0 !in s && line.buf[|s|] == 0 && line.buf[..|s|] == s
    modifies line, line.buf
    ensures r.None? <==> allocs < 1 + |Tokens(s, 0)| / 64
    ensures r.Some? ==>
              var n := |Tokens(s, 0)|;
              && n < r.value.Length == 64 * (1 + n / 64)
              && r.value[..n] == Starts(Tokens(s, 0)) && r.value[n] == NO_POINTER
              && CutIn(line.buf[..], s, Tokens(s, 0), n)
  {
    if allocs == 0 {
      return None;
    }
    hide Tokens, Starts, IsDelim, CutIn, Listed;
    var ok, tokens, position, used := CutAll(line, s, allocs);
    if !ok {
      return None;
    }
    ListedAll(tokens, Tokens(s, 0), used);
    Finish(tokens, position);
    r := Some(tokens);
  }

  /** The loop of `lsh_split_line`, with its first allocation. */
  method CutAll(line: Tokeniser, ghost s: seq<byte>, allocs: nat)
    returns (ok: bool, tokens: array<int>, position: nat, used: nat)
    requires |s| < line.buf.Length && 0 !in s && line.buf[|s|] == 0 && line.buf[..|s|] == s && allocs > 0
    modifies line, line.buf
    ensures fresh(tokens) && (!ok ==> allocs <= |Tokens(s, 0)| / TOK_BUFSIZE)
    ensures ok ==> position == |Tokens(s, 0)| && Listed(tokens, Tokens(s, 0), position, used) && used <= allocs
                   && CutIn(line.buf[..], s, Tokens(s, 0), position)
  {
    hide Tokens, Starts, IsDelim, CutIn, Listed, Cutting, Tokeniser.Intact, Tokeniser.Remaining;
    ghost var ts := Tokens(s, 0);
    ok, position, used := true, 0, 1;
    tokens := new int[TOK_BUFSIZE];
    EmptyList(tokens, ts);
    var token := line.FirstToken(s);
    CuttingFirst(line, s, token);
    while token != NO_POINTER
      invariant fresh(tokens) && Cutting(line, s, position, token)
      invariant Listed(tokens, ts, position, used) && used <= allocs
      decreases |ts| - position
    {
      CuttingAt(line, s, position, token);
      ok, tokens, used, token := Round(line, s, tokens, position, token, used, allocs);
      position := position + 1;
      if !ok {
        return;
      }
    }
    ok := true;
    CuttingAt(line, s, position, token);
  }

  /** `tokens[position] = NULL`. */
  method Finish(tokens: array<int>, n: nat)
    requires n < tokens.Length
    modifies tokens
    ensures tokens[n] == NO_POINTER && tokens[..n] == old(tokens[..n])
  {
    tokens[n] := NO_POINTER;
  }

  /** One round of the loop: store the token, make room, fetch the next. */
  method Round(
    line: Tokeniser, ghost s: seq<byte>, tokens: array<int>, position: nat, token: int, used: nat, allocs: nat)
    returns (ok: bool, grown: array<int>, now: nat, next: int)
    requires Cutting(line, s, position, token) && token != NO_POINTER
    requires Listed(tokens, Tokens(s, 0), position, used) && used <= allocs
    modifies line, line.buf, tokens
    ensures !ok ==> allocs <= |Tokens(s, 0)| / TOK_BUFSIZE
    ensures ok ==> Cutting(line, s, position + 1, next) && Listed(grown, Tokens(s, 0), position + 1, now)
                   && now <= allocs
    ensures grown == tokens || fresh(grown)
  {
    hide Tokens, Starts, IsDelim, CutIn, Listed, Tokeniser.Intact, Tokeniser.Remaining;
    ok, grown, now := StoreToken(tokens, Tokens(s, 0), position, token, used, allocs);
    next := NO_POINTER;
    if ok {
      next := line.NextToken(s, position + 1);
    }
  }

  lemma EmptyList(tokens: array<int>, ts: seq<Token>)
    requires tokens.Length == TOK_BUFSIZE
    ensures Listed(tokens, ts, 0, 1)
  {}

  lemma ListedAll(tokens: array<int>, ts: seq<Token>, used: nat)
    requires Listed(tokens, ts, |ts|, used)
    ensures |ts| < tokens.Length == TOK_BUFSIZE * (1 + |ts| / TOK_BUFSIZE) && tokens[..|ts|] == Starts(ts)
    ensures used == 1 + |ts| / TOK_BUFSIZE
  {
    StartsAll(ts);
    Rooms(|ts|, used);
  }

  lemma Rooms(n: nat, used: nat)
    requires used >= 1 && TOK_BUFSIZE * (used - 1) <= n < TOK_BUFSIZE * used
    ensures n / TOK_BUFSIZE == used - 1
  {}

  /** `token` is the start of token number `n`, already cut out, or NULL if there is none. */
  ghost predicate Cutting(line: Tokeniser, s: seq<byte>, n: nat, token: int)
    reads line, line.buf
  {
    var ts := Tokens(s, 0);
    && line.Intact(s) && n <= |ts|
    && (n == |ts| ==> token == NO_POINTER && CutIn(line.buf[..], s, ts, n))
    && (n < |ts| ==> token == ts[n].from && line.Remaining(s) == ts[n + 1..] && CutIn(line.buf[..], s, ts, n + 1))
  }

  lemma CuttingFirst(line: Tokeniser, s: seq<byte>, token: int)
    requires var ts := Tokens(s, 0);
             && line.Intact(s)
             && if ts == [] then token == NO_POINTER
                else token == ts[0].from && line.Remaining(s) == ts[1..] && CutIn(line.buf[..], s, ts, 1)
    ensures Cutting(line, s, 0, token)
  {}

  lemma CuttingAt(line: Tokeniser, s: seq<byte>, n: nat, token: int)
    requires Cutting(line, s, n, token)
    ensures n <= |Tokens(s, 0)| && (token == NO_POINTER <==> n == |Tokens(s, 0)|)
    ensures n == |Tokens(s, 0)| ==> CutIn(line.buf[..], s, Tokens(s, 0), n)
  {}

  /** The first `n` starts are stored, with room for another pointer. */
  ghost predicate Listed(tokens: array<int>, ts: seq<Token>, n: nat, used: nat)
    reads tokens
  {
    && n <= |ts| && used >= 1 && tokens.Length == TOK_BUFSIZE * used
    && TOK_BUFSIZE * (used - 1) <= n < tokens.Length
    && tokens[..n] == Starts(ts)[..n]
  }

  lemma StartsNext(ts: seq<Token>, k: nat)
    requires k < |ts|
    ensures Starts(ts)[..k + 1] == Starts(ts)[..k] + [ts[k].from as int]
  {}

  lemma StartsAll(ts: seq<Token>)
    ensures Starts(ts)[..|ts|] == Starts(ts)
  {}

  /** Stores one pointer; a full array is replaced by one with 64 slots more. */
  method StoreToken(tokens: array<int>, ghost ts: seq<Token>, position: nat, token: int, used: nat, allocs: nat)
    returns (ok: bool, grown: array<int>, now: nat)
    requires Listed(tokens, ts, position, used) && used <= allocs && position < |ts| && token == ts[position].from
    modifies tokens
    ensures !ok ==> allocs <= |ts| / TOK_BUFSIZE
    ensures ok ==> Listed(grown, ts, position + 1, now) && now <= allocs
    ensures grown == tokens || fresh(grown)
  {
    StartsNext(ts, position);
    hide Starts;
    ok, grown, now := true, tokens, used;
    tokens[position] := token;
    assert tokens[..position + 1] == Starts(ts)[..position + 1];
    if position + 1 >= tokens.Length {
      if used >= allocs {
        ok := false;
      } else {
        now := used + 1;
        grown := GrowPointers(tokens, tokens.Length + TOK_BUFSIZE);
        assert grown[..position + 1] == tokens[..];
      }
    }
  }

  // ----------------------------------------------------------- line reader

  predicate EndsInput(c: int) {
    c == 10 || c == -1
  }

  /** `(char)c`, as a byte. */
  function AsChar(c: int): (r: byte)
    ensures 0 <= c < 256 ==> r as int == c
    ensures (c - r as int) % 256 == 0
  {
    (c % 256) as byte
  }

  /** The line after `line` when the keys arrive, up to a newline or EOF; backspace takes the last byte back. */
  function Typed(line: seq<byte>, keys: seq<int>): seq<byte>
    decreases |keys|
  {
    if keys == [] || EndsInput(keys[0]) then line
    else if keys[0] == 8 then Typed(if line == [] then [] else line[..|line| - 1], keys[1..])
    else Typed(line + [AsChar(keys[0])], keys[1..])
  }

  /** The greatest length the line reaches on the way. */
  function Peak(n: nat, keys: seq<int>): (p: nat)
    ensures p >= n
    decreases |keys|
  {
    if keys == [] || EndsInput(keys[0]) then n
    else
      var m := Peak(if keys[0] == 8 then (if n == 0 then 0 else n - 1) else n + 1, keys[1..]);
      if m < n then n else m
  }

  /**
    Keys other than backspace are typed as they come, up to a newline or the end of
    input: each adds one byte, its own code if it is a character, else the code
    modulo 256. What follows is left for the next line.
   */
  lemma {:induction false} PlainKeysTyped(line: seq<byte>, keys: seq<int>, end: int, rest: seq<int>)
    requires (forall c :: c in keys ==> c != 8 && c != 10 && c != -1) && (end == 10 || end == -1)
    ensures var typed := Typed(line, keys + [end] + rest);
            && |typed| == |line| + |keys| && typed[..|line|] == line
            && forall i :: 0 <= i < |keys| ==>
                 var b := typed[|line| + i] as int;
                 (0 <= keys[i] < 256 ==> b == keys[i]) && (keys[i] - b) % 256 == 0
    decreases |keys|
  {
    var all := keys + [end] + rest;
    if keys == [] {
      assert all[0] == end;
    } else {
      var longer := line + [AsChar(keys[0])];
      assert keys[0] in keys && all[0] == keys[0] && all[1..] == keys[1..] + [end] + rest;
      assert forall c :: c in keys[1..] ==> c in keys;
      PlainKeysTyped(longer, keys[1..], end, rest);
      var typed := Typed(line, all);
      assert typed == Typed(longer, keys[1..] + [end] + rest);
      assert typed[..|longer|] == longer;
      forall i | 0 <= i < |keys|
        ensures var b := typed[|line| + i] as int; (0 <= keys[i] < 256 ==> b == keys[i]) && (keys[i] - b) % 256 == 0
      {
        if i > 0 { assert keys[i] == keys[1..][i - 1]; } else { assert typed[|line|] == longer[|line|]; }
      }
    }
  }

  /** The peak bounds the line after any number of keys, and is reached. */
  lemma {:induction false} PeakIs(line: seq<byte>, keys: seq<int>) returns (top: nat)
    ensures forall k :: 0 <= k <= |keys| ==> |Typed(line, keys[..k])| <= Peak(|line|, keys)
    ensures top <= |keys| && |Typed(line, keys[..top])| == Peak(|line|, keys)
    decreases |keys|
  {
    top := 0;
    if keys == [] || EndsInput(keys[0]) {
      forall k | 0 <= k <= |keys| ensures Typed(line, keys[..k]) == line {}
    } else {
      var next := TypedKey(line, keys[0]);
      var t := PeakIs(next, keys[1..]);
      forall k | 0 < k <= |keys| ensures Typed(line, keys[..k]) == Typed(next, keys[1..][..k - 1]) {
        assert keys[..k][0] == keys[0] && keys[..k][1..] == keys[1..][..k - 1];
      }
      if |line| < Peak(|next|, keys[1..]) { top := t + 1; }
    }
  }

  /** At the start of a line backspace does nothing. */
  lemma BackspaceAtStart(keys: seq<int>)
    ensures Typed([], [8] + keys) == Typed([], keys)
  {
    assert ([8] + keys)[1..] == keys;
  }

  /** A character followed by a backspace leaves no trace, wherever it is typed. */
  lemma {:induction false} BackspaceUndoes(line: seq<byte>, before: seq<int>, c: int, after: seq<int>)
    requires c != 8 && !EndsInput(c)
    ensures Typed(line, before + [c, 8] + after) == Typed(line, before + after)
    decreases |before|
  {
    var keys := before + [c, 8] + after;
    if before == [] {
      assert keys[0] == c && keys[1..][0] == 8 && keys[1..][1..] == after && before + after == after;
      var longer := line + [AsChar(c)];
      assert longer[..|longer| - 1] == line;
      assert Typed(line, keys) == Typed(longer, keys[1..]);
    } else if !EndsInput(before[0]) {
      assert keys[1..] == before[1..] + [c, 8] + after && (before + after)[1..] == before[1..] + after;
      if before[0] == 8 {
        BackspaceUndoes(if line == [] then [] else line[..|line| - 1], before[1..], c, after);
      } else {
        BackspaceUndoes(line + [AsChar(before[0])], before[1..], c, after);
      }
    }
  }

  /** A line typed with keys of the keyboard holds no NUL, as the tokeniser needs. */
  lemma {:induction false} TypedNoNul(line: seq<byte>, keys: seq<int>)
    requires 0 !in line && forall c :: c in keys ==> KeyboardRing.IsKey(c) || EndsInput(c)
    ensures 0 !in Typed(line, keys)
    decreases |keys|
  {
    if keys != [] && !EndsInput(keys[0]) {
      assert keys[0] in keys && AsChar(keys[0]) != 0;
      assert forall c :: c in keys[1..] ==> c in keys;
      if keys[0] == 8 {
        TypedNoNul(if line == [] then [] else line[..|line| - 1], keys[1..]);
      } else {
        TypedNoNul(line + [AsChar(keys[0])], keys[1..]);
      }
    }
  }

  /** `realloc` of the line buffer: `n` bytes, the old ones copied. */
  method GrowBuffer(from: array<byte>, n: nat) returns (r: array<byte>)
    requires from.Length <= n
    ensures fresh(r) && r.Length == n && r[..from.Length] == from[..]
  {
    r := new byte[n];
    var i := 0;
    while i < from.Length
      invariant 0 <= i <= from.Length && r[..i] == from[..i]
    {
      r[i] := from[i];
      i := i + 1;
    }
  }

  /** The line so far in a buffer with room for one more byte. */
  ghost predicate Held(buffer: array<byte>, line: seq<byte>, used: nat, peak: nat)
    reads buffer
  {
    used >= 1 && |line| <= peak && buffer.Length == RL_BUFSIZE * used
    && RL_BUFSIZE * (used - 1) <= peak < buffer.Length && buffer[..|line|] == line
  }

  /** `buffer[position++] = (char)c`, and 1024 bytes more once the buffer is full. */
  method PutChar(
    buffer: array<byte>, position: nat, c: int, used: nat, allocs: nat, ghost line: seq<byte>, ghost peak: nat)
    returns (ok: bool, grown: array<byte>, now: nat, ghost top: nat)
    requires Held(buffer, line, used, peak) && position == |line| && used <= allocs
    modifies buffer
    ensures top == if peak < position + 1 then position + 1 else peak
    ensures !ok ==> allocs <= top / RL_BUFSIZE
    ensures ok ==> Held(grown, line + [AsChar(c)], now, top) && now <= allocs
    ensures grown == buffer || fresh(grown)
  {
    ok, grown, now := true, buffer, used;
    top := if peak < position + 1 then position + 1 else peak;
    buffer[position] := AsChar(c);
    assert buffer[..position + 1] == line + [AsChar(c)];
    if position + 1 >= buffer.Length {
      if used >= allocs {
        ok := false;
      } else {
        now := used + 1;
        grown := GrowBuffer(buffer, buffer.Length + RL_BUFSIZE);
        assert grown[..position + 1] == buffer[..];
      }
    }
  }

  /** One key of the reading loop: backspace steps back, anything else is stored. */
  method TakeKey(
    buffer: array<byte>, position: nat, c: int, used: nat, allocs: nat, ghost line: seq<byte>, ghost peak: nat)
    returns (ok: bool, grown: array<byte>, at: nat, now: nat, ghost longer: seq<byte>, ghost top: nat)
    requires Held(buffer, line, used, peak) && position == |line| && used <= allocs && !EndsInput(c)
    modifies buffer
    ensures longer == TypedKey(line, c) && at == |longer| && top == Max(peak, |longer|)
    ensures !ok ==> allocs <= top / RL_BUFSIZE
    ensures ok ==> Held(grown, longer, now, top) && now <= allocs
    ensures grown == buffer || fresh(grown)
  {
    hide Held, AsChar;
    ok, grown, at, now, longer, top := true, buffer, position, used, line, peak;
    HeldPeak(buffer, line, used, peak);
    if c == 8 {
      if position > 0 {
        HeldShorter(buffer, line, used, peak);
        at, longer := position - 1, line[..position - 1];
      }
    } else {
      ok, grown, now, top := PutChar(buffer, position, c, used, allocs, line, peak);
      at, longer := position + 1, line + [AsChar(c)];
    }
  }

  /** `lsh_read_line`, for keys that end the line at some point. */
  method ReadLine(keys: seq<int>, allocs: nat) returns (r: Option<array<byte>>)
    requires exists i :: 0 <= i < |keys| && EndsInput(keys[i])
    ensures r.None? <==> allocs < 1 + Peak(0, keys) / 1024
    ensures r.Some? ==> var line := Typed([], keys);
                        |line| < r.value.Length && r.value[..|line|] == line && r.value[|line|] == 0
    ensures r.Some? ==> fresh(r.value)
  {
    if allocs == 0 {
      return None;
    }
    hide Held, Typed, Peak;
    var ok, buffer, position, used := TakeKeys(keys, allocs);
    if !ok {
      return None;
    }
    HeldDone(buffer, Typed([], keys), used, Peak(0, keys));
    buffer[position] := 0;
    r := Some(buffer);
  }

  /** The loop of `lsh_read_line`, with its first allocation. */
  method TakeKeys(keys: seq<int>, allocs: nat) returns (ok: bool, buffer: array<byte>, position: nat, used: nat)
    requires (exists i :: 0 <= i < |keys| && EndsInput(keys[i])) && allocs > 0
    ensures fresh(buffer) && (!ok ==> allocs <= Peak(0, keys) / RL_BUFSIZE)
    ensures ok ==> Held(buffer, Typed([], keys), used, Peak(0, keys)) && position == |Typed([], keys)| && used <= allocs
  {
    hide Typed, Peak, TypedKey, Reading;
    buffer := new byte[RL_BUFSIZE];
    var k: nat := 0;
    ok, position, used := true, 0, 1;
    ghost var line: seq<byte>, peak: nat := [], 0;
    assert Held(buffer, line, used, peak);
    hide Held;
    ReadingFirst(keys);
    while !EndsInput(keys[k])
      invariant k < |keys| && Reading(keys, k, line, peak)
      invariant fresh(buffer) && Held(buffer, line, used, peak) && position == |line| && used <= allocs
      decreases |keys| - k
    {
      ReadingNext(keys, k, line, peak);
      ok, buffer, position, used, line, peak := TakeKey(buffer, position, keys[k], used, allocs, line, peak);
      if !ok {
        return;
      }
      k := k + 1;
    }
    ok := true;
    ReadingDone(keys, k, line, peak);
  }

  /** `line` has been typed so far, with at most `peak` bytes on the way, and keys from `k` on are still to come. */
  ghost predicate Reading(keys: seq<int>, k: nat, line: seq<byte>, peak: nat) {
    && (exists i :: k <= i < |keys| && EndsInput(keys[i]))
    && |line| <= peak && Typed([], keys) == Typed(line, keys[k..])
    && Peak(0, keys) == Max(peak, Peak(|line|, keys[k..]))
  }

  lemma ReadingFirst(keys: seq<int>)
    requires exists i :: 0 <= i < |keys| && EndsInput(keys[i])
    ensures Reading(keys, 0, [], 0)
  {
    assert keys[0..] == keys;
  }

  lemma ReadingNext(keys: seq<int>, k: nat, line: seq<byte>, peak: nat)
    requires k < |keys| && Reading(keys, k, line, peak) && !EndsInput(keys[k])
    ensures var longer := TypedKey(line, keys[k]); var top := Max(peak, |longer|);
            k + 1 < |keys| && Reading(keys, k + 1, longer, top) && top / RL_BUFSIZE <= Peak(0, keys) / RL_BUFSIZE
  {
    NextKey(line, keys, k);
    hide Typed, Peak, TypedKey;
    var i :| k <= i < |keys| && EndsInput(keys[i]);
    assert k + 1 <= i;
  }

  lemma NextKey(line: seq<byte>, keys: seq<int>, k: nat)
    requires k < |keys| && !EndsInput(keys[k])
    ensures var longer := TypedKey(line, keys[k]);
            && Typed(line, keys[k..]) == Typed(longer, keys[k + 1..])
            && Peak(|line|, keys[k..]) == Max(|line|, Peak(|longer|, keys[k + 1..]))
            && |longer| <= Peak(|longer|, keys[k + 1..])
  {
    hide AsChar;
    assert keys[k..][0] == keys[k] && keys[k..][1..] == keys[k + 1..];
  }

  lemma ReadingDone(keys: seq<int>, k: nat, line: seq<byte>, peak: nat)
    requires k < |keys| && Reading(keys, k, line, peak) && EndsInput(keys[k])
    ensures Typed([], keys) == line && Peak(0, keys) == peak
  {}

  /** The line after one key that does not end it. */
  function TypedKey(line: seq<byte>, c: int): seq<byte> {
    if c != 8 then line + [AsChar(c)] else if line == [] then [] else line[..|line| - 1]
  }

  lemma HeldPeak(buffer: array<byte>, line: seq<byte>, used: nat, peak: nat)
    requires Held(buffer, line, used, peak)
    ensures |line| <= peak
  {}

  lemma HeldShorter(buffer: array<byte>, line: seq<byte>, used: nat, peak: nat)
    requires Held(buffer, line, used, peak) && line != []
    ensures Held(buffer, line[..|line| - 1], used, peak)
  {}

  lemma HeldDone(buffer: array<byte>, line: seq<byte>, used: nat, peak: nat)
    requires Held(buffer, line, used, peak)
    ensures |line| < buffer.Length && buffer[..|line|] == line && peak / RL_BUFSIZE == used - 1
  {}

  function Max(a: nat, b: nat): nat {
    if a < b then b else a
  }

  /** One command of `lsh_loop`: the line that the keys type, cut into its tokens, or NULL without enough memory. */
  method ReadCommand(keys: seq<int>, lineAllocs: nat, tokenAllocs: nat)
    returns (line: Option<array<byte>>, args: Option<array<int>>)
    requires exists i :: 0 <= i < |keys| && EndsInput(keys[i])
    requires forall c :: c in keys ==> KeyboardRing.IsKey(c) || EndsInput(c)
    ensures var s := Typed([], keys); var ts := Tokens(s, 0);
            && (line.None? <==> lineAllocs < 1 + Peak(0, keys) / RL_BUFSIZE)
            && (args.None? <==> line.None? || tokenAllocs < 1 + |ts| / TOK_BUFSIZE)
            && (args.Some? ==> |ts| < args.value.Length && args.value[..|ts|] == Starts(ts)
                               && args.value[|ts|] == NO_POINTER && CutIn(line.value[..], s, ts, |ts|))
  {
    hide Typed, Peak, Tokens, Starts, CutIn;
    args := None;
    line := ReadLine(keys, lineAllocs);
    if line.Some? {
      TypedNoNul([], keys);
      var tok := new Tokeniser(line.value);
      args := SplitLine(tok, Typed([], keys), tokenAllocs);
    }
  }
}
