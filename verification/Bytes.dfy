/** Bytes, and 32-bit little-endian words stored in byte arrays. */
module Bytes {

  newtype byte = x: int | 0 <= x < 256

  const WORD_LIMIT: nat := 0x1_0000_0000

  function WordOf(b0: byte, b1: byte, b2: byte, b3: byte): nat {
    b0 as nat + 0x100 * b1 as nat + 0x1_0000 * b2 as nat + 0x100_0000 * b3 as nat
  }

  /** The word stored at byte offset `a`; no alignment is needed. */
  function Word(m: array<byte>, a: nat): nat
    requires a + 4 <= m.Length
    reads m
  {
    WordOf(m[a], m[a + 1], m[a + 2], m[a + 3])
  }

  /** The four bytes of a word make up the word. */
  lemma WordBytes(v: nat)
    requires v < WORD_LIMIT
    ensures v / 0x100_0000 < 0x100
    ensures WordOf((v % 0x100) as byte, (v / 0x100 % 0x100) as byte, (v / 0x1_0000 % 0x100) as byte,
                   (v / 0x100_0000) as byte) == v
  {
    var a, b := v / 0x100, v / 0x1_0000;
    assert v == 0x100 * a + v % 0x100 && a / 0x100 == b && b / 0x100 == v / 0x100_0000;
    assert a == 0x100 * b + a % 0x100 && b == 0x100 * (v / 0x100_0000) + b % 0x100;
  }

  /** Stores a word and touches nothing but its four bytes. */
  method PutWord(m: array<byte>, a: nat, v: nat)
    requires a + 4 <= m.Length && v < WORD_LIMIT
    modifies m
    ensures Word(m, a) == v
    ensures forall k :: 0 <= k < m.Length && !(a <= k < a + 4) ==> m[k] == old(m[k])
  {
    WordBytes(v);
    hide WordOf;
    m[a] := (v % 0x100) as byte;
    m[a + 1] := (v / 0x100 % 0x100) as byte;
    m[a + 2] := (v / 0x1_0000 % 0x100) as byte;
    m[a + 3] := (v / 0x100_0000) as byte;
  }

  // ------------------------------------------------------------- C strings

  /** The bytes before the first NUL. */
  function CString(s: seq<byte>): (r: seq<byte>)
    ensures |r| <= |s| && r == s[..|r|] && 0 !in r
    ensures |r| < |s| ==> s[|r|] == 0
  {
    if s == [] || s[0] == 0 then [] else [s[0]] + CString(s[1..])
  }

  /** There is only one way to cut a string at its first NUL. */
  lemma CStringIs(s: seq<byte>, n: nat)
    requires n < |s| && s[n] == 0 && 0 !in s[..n]
    ensures CString(s) == s[..n]
  {
    var r := CString(s);
    assert forall i :: 0 <= i < n ==> s[..n][i] in s[..n];
    assert forall i :: 0 <= i < |r| ==> r[i] in r;
  }

  /** `strcmp` on the strings without their terminators: the first difference, a missing byte counting as NUL. */
  function Compare(s: seq<byte>, t: seq<byte>): (r: int)
    decreases |s|
  {
    if s != [] && t != [] && s[0] == t[0] then Compare(s[1..], t[1..])
    else (if s == [] then 0 else s[0] as int) - (if t == [] then 0 else t[0] as int)
  }

  /** Zero means equal, for strings that hold no NUL. */
  lemma {:induction false} CompareZero(s: seq<byte>, t: seq<byte>)
    requires 0 !in s && 0 !in t
    ensures Compare(s, t) == 0 <==> s == t
    decreases |s|
  {
    if s != [] && t != [] && s[0] == t[0] {
      CompareZero(s[1..], t[1..]);
      assert s == [s[0]] + s[1..] && t == [t[0]] + t[1..];
    } else {
      if s != [] { assert s[0] in s; }
      if t != [] { assert t[0] in t; }
    }
  }

  /** Byte `k` of a C string, its terminator included. */
  function ByteOrNul(s: seq<byte>, k: nat): int {
    if k < |s| then s[k] as int else 0
  }

  /** Otherwise the sign is that of the first difference. */
  lemma {:induction false} CompareDiffers(s: seq<byte>, t: seq<byte>, k: nat)
    requires k <= |s| && k <= |t| && s[..k] == t[..k] && ByteOrNul(s, k) != ByteOrNul(t, k)
    ensures Compare(s, t) == ByteOrNul(s, k) - ByteOrNul(t, k)
    decreases k
  {
    if k > 0 {
      assert s[..k][0] == s[0] && t[..k][0] == t[0];
      assert s[1..][..k - 1] == s[..k][1..] && t[1..][..k - 1] == t[..k][1..];
      CompareDiffers(s[1..], t[1..], k - 1);
    }
  }

  /** `strcmp`: the bytes at `a` against a C string `ct`. */
  method StrCmp(m: array<byte>, a: nat, ct: seq<byte>, ghost limit: nat) returns (r: int)
    requires a + limit <= m.Length && |CString(m[a..a + limit])| < limit && 0 !in ct
    ensures r == Compare(CString(m[a..a + limit]), ct)
  {
    ghost var cs := CString(m[a..a + limit]);
    var k := 0;
    while m[a + k] != 0 && k < |ct| && m[a + k] == ct[k]
      invariant 0 <= k <= |cs| && k <= |ct|
      invariant Compare(cs, ct) == Compare(cs[k..], ct[k..])
      decreases |ct| - k
    {
      assert m[a + k] == m[a..a + limit][k];
      assert k < |cs|;
      k := k + 1;
    }
    assert m[a + k] == m[a..a + limit][k];
    assert k < |cs| ==> m[a + k] == cs[k] && cs[k] in cs;
    r := (m[a + k] as int) - (if k < |ct| then ct[k] as int else 0);
  }

  // --------------------------------------------------------------- memmove

  /** `n` elements from `s` on copied to `d` on, as if through a second buffer. */
  function Moved<T>(a: seq<T>, d: nat, s: nat, n: nat): (r: seq<T>)
    requires d + n <= |a| && s + n <= |a|
    ensures |r| == |a|
  {
    a[..d] + a[s..s + n] + a[d + n..]
  }

  /** Every element after a move. */
  lemma MovedAt<T>(a: seq<T>, d: nat, s: nat, n: nat, i: nat)
    requires d + n <= |a| && s + n <= |a| && i < |a|
    ensures Moved(a, d, s, n)[i] == if d <= i < d + n then a[s + (i - d)] else a[i]
  {}

  /** Moving one element more, from the front: its source has not been overwritten. */
  lemma MovedNext<T>(a: seq<T>, d: nat, s: nat, i: nat)
    requires d < s && s + i < |a|
    ensures Moved(a, d, s, i)[d + i := Moved(a, d, s, i)[s + i]] == Moved(a, d, s, i + 1)
  {
    assert Moved(a, d, s, i)[s + i] == a[s + i];
    assert a[s..s + (i + 1)] == a[s..s + i] + [a[s + i]];
  }

  /** And from the back. */
  lemma MovedBefore<T>(a: seq<T>, d: nat, s: nat, n: nat, i: nat)
    requires s <= d && d + n <= |a| && 0 < i <= n
    ensures var so := Moved(a, d + i, s + i, n - i);
            so[d + i - 1 := so[s + i - 1]] == Moved(a, d + (i - 1), s + (i - 1), n - (i - 1))
  {
    var so := Moved(a, d + i, s + i, n - i);
    assert so[s + i - 1] == a[s + i - 1];
    assert a[s + (i - 1)..s + n] == [a[s + i - 1]] + a[s + i..s + n];
  }

  /** `memmove` inside one array: overlapping bytes are read before they are overwritten. */
  method MemMove<T>(a: array<T>, d: nat, s: nat, n: nat)
    requires d + n <= a.Length && s + n <= a.Length
    modifies a
    ensures a[..] == Moved(old(a[..]), d, s, n)
  {
    if d < s {
      MoveForwards(a, d, s, n);
    } else {
      MoveBackwards(a, d, s, n);
    }
  }

  method MoveForwards<T>(a: array<T>, d: nat, s: nat, n: nat)
    requires d < s && s + n <= a.Length
    modifies a
    ensures a[..] == Moved(old(a[..]), d, s, n)
  {
    ghost var was := a[..];
    var i := 0;
    assert a[..] == Moved(was, d, s, 0);
    hide Moved;
    while i < n
      invariant 0 <= i <= n && a[..] == Moved(was, d, s, i)
    {
      MovedNext(was, d, s, i);
      ghost var so := a[..];
      a[d + i] := a[s + i];
      assert a[..] == so[d + i := so[s + i]];
      i := i + 1;
    }
  }

  method MoveBackwards<T>(a: array<T>, d: nat, s: nat, n: nat)
    requires s <= d && d + n <= a.Length
    modifies a
    ensures a[..] == Moved(old(a[..]), d, s, n)
  {
    ghost var was := a[..];
    var i := n;
    assert a[..] == Moved(was, d + n, s + n, 0);
    hide Moved;
    while i > 0
      invariant 0 <= i <= n && a[..] == Moved(was, d + i, s + i, n - i)
    {
      MovedBefore(was, d, s, n, i);
      ghost var so := a[..];
      i := i - 1;
      a[d + i] := a[s + i];
      assert a[..] == so[d + i := so[s + i]];
    }
  }

  /** `memcpy` of a string into an array. */
  method MemCpy(a: array<byte>, at: nat, s: seq<byte>)
    requires at + |s| <= a.Length
    modifies a
    ensures a[..] == old(a[..at]) + s + old(a[at + |s|..])
  {
    var i := 0;
    while i < |s|
      invariant 0 <= i <= |s|
      invariant a[..at] == old(a[..at]) && a[at..at + i] == s[..i] && a[at + i..] == old(a[at + i..])
    {
      ghost var rest := a[at + i..];
      a[at + i] := s[i];
      i := i + 1;
      assert a[at + i..] == rest[1..];
      assert a[at..at + i] == s[..i - 1] + [s[i - 1]];
    }
  }
}
