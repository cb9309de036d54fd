/**
  The node list of the kernel heap (`kernel/mm.c`) as a value.

  A layout lists the headers of the 1 MiB heap array in address order. This
  module defines what allocation and release do to a layout and proves what
  every run of them keeps; `Heap.dfy` proves that the header bytes in memory
  follow these definitions.
 */
module HeapLayout {
  import opened Common

  const TOTAL: nat := 0x10_0000
  const HEADER: nat := 16

  /** One header and the payload after it. `addr` is the header's offset in the heap array. */
  datatype Block = Block(addr: nat, size: nat, used: bool) {
    function Payload(): nat { addr + HEADER }
    function End(): nat { addr + HEADER + size }
  }

  type Layout = seq<Block>

  /** The blocks of `s` cover `lo..hi` with no gap and no overlap, in order. */
  ghost predicate Tiles(s: Layout, lo: nat, hi: nat) {
    if s == [] then lo == hi else s[0].addr == lo && Tiles(s[1..], s[0].End(), hi)
  }

  /** No two neighbours are both free. */
  ghost predicate Coalesced(s: Layout) {
    forall i, j :: 0 <= i && j == i + 1 && j < |s| ==> s[i].used || s[j].used
  }

  ghost predicate Valid(s: Layout) {
    Tiles(s, 0, TOTAL) && Coalesced(s)
  }

  /** The live blocks: exactly what clients hold. */
  ghost function Used(s: Layout): set<Block> {
    set b | b in s && b.used
  }

  const Initial: Layout := [Block(0, TOTAL - HEADER, false)]

  // ---------------------------------------------------------------- tiling

  ghost function EndOf(s: Layout, lo: nat): nat {
    if s == [] then lo else s[|s| - 1].End()
  }

  lemma {:induction false} TilesConcat(a: Layout, b: Layout, lo: nat, hi: nat)
    ensures Tiles(a + b, lo, hi) <==> Tiles(a, lo, EndOf(a, lo)) && Tiles(b, EndOf(a, lo), hi)
  {
    if a == [] {
      assert a + b == b;
    } else {
      assert (a + b)[1..] == a[1..] + b;
      TilesConcat(a[1..], b, a[0].End(), hi);
    }
  }

  lemma {:induction false} TilesBounds(s: Layout, lo: nat, hi: nat, i: nat)
    requires Tiles(s, lo, hi) && i < |s|
    ensures lo <= s[i].addr && s[i].End() <= hi && EndOf(s, lo) == hi
    ensures i == 0 ==> s[i].addr == lo
    ensures i + 1 < |s| ==> s[i + 1].addr == s[i].End()
    ensures i + 1 == |s| ==> s[i].End() == hi
  {
    if |s| == 1 {
    } else if i > 0 {
      TilesBounds(s[1..], s[0].End(), hi, i - 1);
    } else {
      TilesBounds(s[1..], s[0].End(), hi, 0);
    }
  }

  /** Blocks lie in address order, so distinct blocks never overlap. */
  lemma {:induction false} TilesOrdered(s: Layout, lo: nat, hi: nat, i: nat, j: nat)
    requires Tiles(s, lo, hi) && i < j < |s|
    ensures s[i].End() <= s[j].addr
  {
    if i == 0 {
      TilesBounds(s[1..], s[0].End(), hi, j - 1);
    } else {
      TilesOrdered(s[1..], s[0].End(), hi, i - 1, j - 1);
    }
  }

  lemma HeadersApart(s: Layout)
    requires Tiles(s, 0, TOTAL)
    ensures forall i :: 0 <= i < |s| ==> s[i].addr + HEADER + s[i].size <= TOTAL
    ensures forall i, j :: 0 <= i < j < |s| ==> s[i].addr + HEADER + s[i].size <= s[j].addr
  {
    forall i | 0 <= i < |s| ensures s[i].addr + HEADER + s[i].size <= TOTAL { TilesBounds(s, 0, TOTAL, i); }
    forall i, j | 0 <= i < j < |s| ensures s[i].addr + HEADER + s[i].size <= s[j].addr {
      TilesOrdered(s, 0, TOTAL, i, j);
    }
  }

  /** Replacing some blocks by others that cover the same bytes keeps the tiling. */
  lemma {:induction false} TilesReplace(a: Layout, was: Layout, now: Layout, b: Layout, lo: nat, hi: nat)
    requires Tiles(a + was + b, lo, hi) && was != [] && now != []
    requires Tiles(now, was[0].addr, was[|was| - 1].End())
    ensures Tiles(a + now + b, lo, hi)
  {
    var m := EndOf(a, lo);
    assert a + was + b == a + (was + b);
    TilesConcat(a, was + b, lo, hi);
    TilesConcat(was, b, m, hi);
    TilesBounds(now, m, was[|was| - 1].End(), 0);
    TilesConcat(now, b, m, hi);
    TilesConcat(a, now + b, lo, hi);
    assert a + now + b == a + (now + b);
  }

  /** The bytes of headers and payloads together are always the whole array. */
  ghost function Footprint(s: Layout): nat {
    if s == [] then 0 else s[0].size + HEADER + Footprint(s[1..])
  }

  lemma {:induction false} Conservation(s: Layout, lo: nat, hi: nat)
    requires Tiles(s, lo, hi)
    ensures Footprint(s) == hi - lo
  {
    if s != [] {
      Conservation(s[1..], s[0].End(), hi);
    }
  }

  lemma Around<T>(s: seq<T>, k: nat)
    requires k < |s|
    ensures s == s[..k] + [s[k]] + s[k + 1..]
  {}

  // -------------------------------------------------------------- best fit

  ghost predicate Fits(b: Block, n: nat) {
    !b.used && b.size >= n
  }

  ghost predicate NothingFits(s: Layout, n: nat) {
    forall b :: b in s ==> !Fits(b, n)
  }

  /** `k` is the smallest sufficient free block, the highest one among equals. */
  ghost predicate IsBestFit(s: Layout, n: nat, k: nat) {
    k < |s| && Fits(s[k], n) &&
    forall j :: 0 <= j < |s| && Fits(s[j], n) ==> s[k].size < s[j].size || (s[k].size == s[j].size && j <= k)
  }

  /** The block `find_best_mem_block` settles on after walking all of `s`. */
  ghost function BestFit(s: Layout, n: nat): (r: Option<nat>)
    ensures r.Some? ==> IsBestFit(s, n, r.value)
    ensures r.None? <==> NothingFits(s, n)
  {
    if s == [] then None
    else
      var rest, last := BestFit(s[..|s| - 1], n), s[|s| - 1];
      assert s == s[..|s| - 1] + [last];
      if Fits(last, n) && (rest.None? || last.size <= s[rest.value].size) then Some(|s| - 1) else rest
  }

  /** One step of the walk. */
  lemma BestFitNext(s: Layout, n: nat, i: nat)
    requires i < |s|
    ensures var so := BestFit(s[..i], n);
            BestFit(s[..i + 1], n) ==
            if Fits(s[i], n) && (so.None? || s[i].size <= s[so.value].size) then Some(i) else so
  {
    assert s[..i + 1][..i] == s[..i];
  }

  // ------------------------------------------------- allocation and release

  predicate Splits(b: Block, n: nat) {
    b.size >= n + HEADER
  }

  /** Block `k` with its flag set to `u`. */
  function Mark(s: Layout, k: nat, u: bool): (t: Layout)
    requires k < |s|
    ensures |t| == |s| && forall i :: 0 <= i < |s| && i != k ==> t[i] == s[i]
    ensures t[k] == Block(s[k].addr, s[k].size, u)
  {
    s[..k] + [Block(s[k].addr, s[k].size, u)] + s[k + 1..]
  }

  /** Allocation out of block `k`: carve the tail off, or take the whole block. */
  function Allocate(s: Layout, k: nat, n: nat): Layout
    requires k < |s| && s[k].size >= n
  {
    if Splits(s[k], n) then
      s[..k] + [Block(s[k].addr, s[k].size - n - HEADER, false), Block(s[k].End() - n - HEADER, n, true)] + s[k + 1..]
    else
      Mark(s, k, true)
  }

  /** The block a client receives from `Allocate`. */
  function Granted(s: Layout, k: nat, n: nat): Block
    requires k < |s| && s[k].size >= n
  {
    if Splits(s[k], n) then Block(s[k].End() - n - HEADER, n, true) else Block(s[k].addr, s[k].size, true)
  }

  function MergeNext(s: Layout, k: nat): Layout
    requires k < |s|
  {
    if k + 1 < |s| && !s[k + 1].used then
      s[..k] + [Block(s[k].addr, s[k].size + s[k + 1].size + HEADER, s[k].used)] + s[k + 2..]
    else s
  }

  function MergePrevious(s: Layout, k: nat): Layout
    requires k < |s|
  {
    if k > 0 && !s[k - 1].used then
      s[..k - 1] + [Block(s[k - 1].addr, s[k - 1].size + s[k].size + HEADER, false)] + s[k + 1..]
    else s
  }

  function Release(s: Layout, k: nat): Layout
    requires k < |s|
  {
    MergePrevious(MergeNext(Mark(s, k, false), k), k)
  }

  lemma UsedReplace(a: Layout, was: Layout, now: Layout, b: Layout, s: Layout, t: Layout)
    requires s == a + was + b && t == a + now + b
    ensures Used(t) == Used(a) + Used(now) + Used(b)
    ensures Used(s) == Used(a) + Used(was) + Used(b)
  {
    assert forall x :: x in t <==> x in a || x in now || x in b;
    assert forall x :: x in s <==> x in a || x in was || x in b;
  }

  /** A block is nowhere else in its own layout. */
  lemma BlockOnce(s: Layout, lo: nat, hi: nat, k: nat)
    requires Tiles(s, lo, hi) && k < |s|
    ensures forall i :: 0 <= i < |s| && i != k ==> s[i].addr != s[k].addr
  {
    forall i | 0 <= i < |s| && i != k ensures s[i].addr != s[k].addr {
      if i < k { TilesOrdered(s, lo, hi, i, k); } else { TilesOrdered(s, lo, hi, k, i); }
    }
  }

  lemma UsedAt(s: Layout, lo: nat, hi: nat, k: nat)
    requires Tiles(s, lo, hi) && k < |s|
    ensures Used(s[..k]) + Used(s[k + 1..]) == Used(s) - {s[k]}
  {
    BlockOnce(s, lo, hi, k);
    assert s == s[..k] + [s[k]] + s[k + 1..];
    forall b | b in s[..k] || b in s[k + 1..] ensures b != s[k] {
      if b in s[..k] { var i :| 0 <= i < k && s[i] == b; }
      else { var i :| 0 <= i < |s[k + 1..]| && s[k + 1..][i] == b; assert s[k + 1 + i] == b; }
    }
  }

  /** Where the blocks of a split layout come from. */
  lemma SplitShape(s: Layout, k: nat, n: nat)
    requires k < |s| && Splits(s[k], n)
    ensures var t := Allocate(s, k, n);
            && |t| == |s| + 1
            && (forall j :: 0 <= j < k ==> t[j] == s[j])
            && t[k] == Block(s[k].addr, s[k].size - n - HEADER, false)
            && t[k + 1] == Granted(s, k, n)
            && (forall j :: k + 1 < j < |t| ==> t[j] == s[j - 1])
  {}

  lemma WholeShape(s: Layout, k: nat, n: nat)
    requires k < |s| && s[k].size >= n && !Splits(s[k], n)
    ensures Allocate(s, k, n) == Mark(s, k, true)
  {}

  lemma MergeShape(s: Layout, k: nat)
    requires k + 1 < |s| && !s[k + 1].used
    ensures var t := MergeNext(s, k);
            && |t| == |s| - 1
            && (forall j :: 0 <= j < k ==> t[j] == s[j])
            && t[k] == Block(s[k].addr, s[k].size + s[k + 1].size + HEADER, s[k].used)
            && (forall j :: k < j < |t| ==> t[j] == s[j + 1])
  {}

  lemma TilesTwo(a: Block, b: Block)
    requires b.addr == a.End()
    ensures Tiles([a, b], a.addr, b.End())
  {
    assert [a, b][1..] == [b] && [b][1..] == [];
  }

  lemma AllocateTiles(s: Layout, k: nat, n: nat)
    requires Tiles(s, 0, TOTAL) && k < |s| && s[k].size >= n
    ensures Tiles(Allocate(s, k, n), 0, TOTAL)
  {
    hide Tiles;
    if Splits(s[k], n) {
      var a, b := Block(s[k].addr, s[k].size - n - HEADER, false), Granted(s, k, n);
      Around(s, k);
      TilesTwo(a, b);
      TilesReplace(s[..k], [s[k]], [a, b], s[k + 1..], 0, TOTAL);
    } else {
      MarkTiles(s, k, true);
    }
  }

  lemma AllocateUsed(s: Layout, k: nat, n: nat)
    requires k < |s| && Fits(s[k], n)
    ensures Used(Allocate(s, k, n)) == Used(s) + {Granted(s, k, n)}
  {
    var g := Granted(s, k, n);
    var now := if Splits(s[k], n) then [Block(s[k].addr, s[k].size - n - HEADER, false), g] else [g];
    Around(s, k);
    assert Used([s[k]]) == {} && Used(now) == {g};
    hide Used;
    UsedReplace(s[..k], [s[k]], now, s[k + 1..], s, Allocate(s, k, n));
  }

  lemma AllocateCoalesced(s: Layout, k: nat, n: nat)
    requires Coalesced(s) && k < |s| && Fits(s[k], n)
    ensures Coalesced(Allocate(s, k, n))
  {
    var t := Allocate(s, k, n);
    if Splits(s[k], n) {
      SplitShape(s, k, n);
      hide Allocate;
      forall i, j | 0 <= i && j == i + 1 && j < |t| ensures t[i].used || t[j].used {
        if i > k + 1 { assert s[i - 1].used || s[j - 1].used; }
        else if i < k { assert s[i].used || s[j].used; }
      }
    }
  }

  /** What `malloc` does: the free block becomes a remainder plus one new live block. */
  lemma AllocateKeeps(s: Layout, k: nat, n: nat)
    requires Valid(s) && k < |s| && Fits(s[k], n)
    ensures Valid(Allocate(s, k, n))
    ensures Used(Allocate(s, k, n)) == Used(s) + {Granted(s, k, n)}
    ensures Granted(s, k, n) !in Used(s) && n <= Granted(s, k, n).size < n + HEADER
    ensures s[k].addr <= Granted(s, k, n).addr && Granted(s, k, n).End() == s[k].End()
  {
    AllocateTiles(s, k, n);
    AllocateUsed(s, k, n);
    AllocateCoalesced(s, k, n);
    hide Allocate, Coalesced, Tiles;
    if Granted(s, k, n) in s {
      var i :| 0 <= i < |s| && s[i] == Granted(s, k, n);
      if i < k { TilesOrdered(s, 0, TOTAL, i, k); } else if i > k { TilesOrdered(s, 0, TOTAL, k, i); }
    }
  }

  lemma MergeNextKeeps(s: Layout, k: nat)
    requires Tiles(s, 0, TOTAL) && k < |s| && !s[k].used
    ensures Tiles(MergeNext(s, k), 0, TOTAL) && Used(MergeNext(s, k)) == Used(s)
  {
    if k + 1 < |s| && !s[k + 1].used {
      var t, was := MergeNext(s, k), [s[k], s[k + 1]];
      var now := [Block(s[k].addr, s[k].size + s[k + 1].size + HEADER, s[k].used)];
      assert s == s[..k] + was + s[k + 2..];
      MergeTiles(s, k);
      UsedReplace(s[..k], was, now, s[k + 2..], s, t);
      assert Used(was) == {} && Used(now) == {};
    }
  }

  lemma MergePreviousKeeps(s: Layout, k: nat)
    requires Tiles(s, 0, TOTAL) && k < |s| && !s[k].used
    ensures Tiles(MergePrevious(s, k), 0, TOTAL) && Used(MergePrevious(s, k)) == Used(s)
  {
    if k > 0 && !s[k - 1].used {
      MergeNextKeeps(s, k - 1);
      assert MergePrevious(s, k) == MergeNext(s, k - 1);
    }
  }

  lemma MergeTiles(s: Layout, k: nat)
    requires Tiles(s, 0, TOTAL) && k + 1 < |s| && !s[k + 1].used
    ensures Tiles(MergeNext(s, k), 0, TOTAL)
  {
    TilesBounds(s, 0, TOTAL, k);
    var was := [s[k], s[k + 1]];
    var now := [Block(s[k].addr, s[k].size + s[k + 1].size + HEADER, s[k].used)];
    assert s == s[..k] + was + s[k + 2..] && now[1..] == [];
    TilesReplace(s[..k], was, now, s[k + 2..], 0, TOTAL);
  }

  lemma MarkTiles(s: Layout, k: nat, u: bool)
    requires Tiles(s, 0, TOTAL) && k < |s|
    ensures Tiles(Mark(s, k, u), 0, TOTAL)
  {
    var now := [Block(s[k].addr, s[k].size, u)];
    assert s == s[..k] + [s[k]] + s[k + 1..] && now[1..] == [];
    TilesReplace(s[..k], [s[k]], now, s[k + 1..], 0, TOTAL);
  }

  lemma MarkFreeKeeps(s: Layout, k: nat)
    requires Tiles(s, 0, TOTAL) && k < |s|
    ensures Tiles(Mark(s, k, false), 0, TOTAL) && Used(Mark(s, k, false)) == Used(s) - {s[k]}
  {
    MarkTiles(s, k, false);
    var now := [Block(s[k].addr, s[k].size, false)];
    Around(s, k);
    assert Used(now) == {};
    hide Tiles, Used;
    UsedReplace(s[..k], [s[k]], now, s[k + 1..], s, Mark(s, k, false));
    UsedAt(s, 0, TOTAL, k);
  }

  /** Only block `k` may have a free neighbour. */
  ghost predicate CoalescedApartFrom(s: Layout, k: nat) {
    forall i, j :: 0 <= i && j == i + 1 && j < |s| && i != k && j != k ==> s[i].used || s[j].used
  }

  lemma MergeNextCoalesces(s: Layout, k: nat)
    requires k < |s| && CoalescedApartFrom(s, k)
    ensures CoalescedApartFrom(MergeNext(s, k), k)
    ensures k + 1 < |MergeNext(s, k)| ==> MergeNext(s, k)[k + 1].used
  {
    if k + 2 < |s| { assert k + 1 != k && (s[k + 1].used || s[k + 2].used); }
  }

  lemma MergePreviousCoalesces(s: Layout, k: nat)
    requires k < |s| && CoalescedApartFrom(s, k) && (k + 1 < |s| ==> s[k + 1].used)
    ensures Coalesced(MergePrevious(s, k))
  {
    if k > 1 { assert s[k - 2].used || s[k - 1].used; }
  }

  /** What `mem_free` does: one live block goes, the rest stay, and no free neighbours are left behind. */
  lemma ReleaseKeeps(s: Layout, k: nat)
    requires Valid(s) && k < |s| && s[k].used
    ensures Valid(Release(s, k)) && Used(Release(s, k)) == Used(s) - {s[k]}
  {
    MarkFreeKeeps(s, k);
    var a := Mark(s, k, false);
    MergeNextKeeps(a, k);
    var b := MergeNext(a, k);
    MergePreviousKeeps(b, k);
    MergeNextCoalesces(a, k);
    MergePreviousCoalesces(b, k);
  }

  /** The layouts `mem_free` passes through; what stays live is in each of them. */
  lemma ReleaseStages(s: Layout, k: nat)
    requires Valid(s) && k < |s| && s[k].used
    ensures var a := Mark(s, k, false); var b := MergeNext(a, k);
            && k < |a| && a[k].addr == s[k].addr
            && k < |b| && b[k].addr == s[k].addr && !b[k].used
            && Release(s, k) == MergePrevious(b, k)
            && forall x :: x in Used(Release(s, k)) ==> x in a && x in b && x in Release(s, k)
  {
    MarkFreeKeeps(s, k);
    MergeNextKeeps(Mark(s, k, false), k);
    MergePreviousKeeps(MergeNext(Mark(s, k, false), k), k);
  }

  /** Live payloads never share a byte, with each other or with any header. */
  lemma LiveDisjoint(s: Layout, b: Block, c: Block)
    requires Valid(s) && b in s && c in s && b != c
    ensures b.End() <= c.addr || c.End() <= b.addr
    ensures b.End() <= TOTAL
  {
    var i :| 0 <= i < |s| && s[i] == b;
    var j :| 0 <= j < |s| && s[j] == c;
    TilesBounds(s, 0, TOTAL, i);
    if i < j { TilesOrdered(s, 0, TOTAL, i, j); } else { TilesOrdered(s, 0, TOTAL, j, i); }
  }

  // ----------------------------------------------------- canonical layouts

  lemma FirstUsed(s: Layout, t: Layout, lo: nat, hi: nat)
    requires Tiles(s, lo, hi) && Tiles(t, lo, hi) && Used(s) == Used(t)
    requires s != [] && t != [] && s[0].used
    ensures s[0] == t[0]
  {
    assert s[0] in Used(t);
    var i :| 0 <= i < |t| && t[i] == s[0];
    if i > 0 { TilesOrdered(t, lo, hi, 0, i); }
  }

  lemma FirstFree(s: Layout, t: Layout, lo: nat, hi: nat)
    requires Tiles(s, lo, hi) && Tiles(t, lo, hi) && Used(s) == Used(t)
    requires Coalesced(t)
    requires s != [] && t != [] && !s[0].used && !t[0].used
    ensures s[0].End() <= t[0].End()
  {
    TilesBounds(s, lo, hi, 0);
    if |t| == 1 {
    } else {
      assert t[0].used || t[1].used;
      assert t[1] in Used(s);
      TilesBounds(t, lo, hi, 0);
      var i :| 0 <= i < |s| && s[i] == t[1];
      TilesOrdered(s, lo, hi, 0, i);
    }
  }

  lemma UsedTail(s: Layout, lo: nat, hi: nat)
    requires Tiles(s, lo, hi) && s != []
    ensures Used(s[1..]) == Used(s) - {s[0]}
  {
    UsedAt(s, lo, hi, 0);
    assert s[..0] == [];
  }

  /** A coalesced tiling is determined by its live blocks alone. */
  lemma {:induction false} Canonical(s: Layout, t: Layout, lo: nat, hi: nat)
    requires Tiles(s, lo, hi) && Tiles(t, lo, hi) && Coalesced(s) && Coalesced(t)
    requires Used(s) == Used(t)
    ensures s == t
  {
    if s == [] {
      if t != [] { TilesBounds(t, lo, hi, 0); }
    } else if t == [] {
      TilesBounds(s, lo, hi, 0);
    } else {
      if s[0].used { FirstUsed(s, t, lo, hi); }
      else if t[0].used { FirstUsed(t, s, lo, hi); }
      else { FirstFree(s, t, lo, hi); FirstFree(t, s, lo, hi); }
      UsedTail(s, lo, hi);
      UsedTail(t, lo, hi);
      Canonical(s[1..], t[1..], s[0].End(), hi);
      assert s == [s[0]] + s[1..] && t == [t[0]] + t[1..];
    }
  }

  lemma InitialValid()
    ensures Valid(Initial) && Used(Initial) == {}
  {
    assert Initial[1..] == [];
  }

  /** Once nothing is live the heap is the single node that initialisation built. */
  lemma NothingLive(s: Layout)
    requires Valid(s) && Used(s) == {}
    ensures s == Initial
  {
    InitialValid();
    Canonical(s, Initial, 0, TOTAL);
  }

  // ------------------------------------------------------ calls by pointer

  // A pointer is the offset of a payload in the heap array; 0 stands for NULL.

  ghost predicate Live(s: Layout, p: nat) {
    exists k :: 0 <= k < |s| && s[k].used && s[k].Payload() == p
  }

  ghost function IndexOf(s: Layout, p: nat): (k: nat)
    requires Live(s, p)
    ensures k < |s| && s[k].used && s[k].Payload() == p
  {
    var k :| 0 <= k < |s| && s[k].used && s[k].Payload() == p;
    k
  }

  ghost function BlockOf(s: Layout, p: nat): Block
    requires Live(s, p)
  {
    s[IndexOf(s, p)]
  }

  lemma IndexUnique(s: Layout, k: nat)
    requires Valid(s) && k < |s| && s[k].used
    ensures Live(s, s[k].Payload()) && IndexOf(s, s[k].Payload()) == k
  {
    BlockOnce(s, 0, TOTAL, k);
  }

  lemma LiveUsed(s: Layout, p: nat)
    ensures Live(s, p) <==> exists b :: b in Used(s) && b.Payload() == p
  {
    if Live(s, p) { assert BlockOf(s, p) in Used(s); }
    if b :| b in Used(s) && b.Payload() == p { var k :| 0 <= k < |s| && s[k] == b; }
  }

  ghost function Malloc(s: Layout, n: nat): (r: (Layout, nat))
  {
    match BestFit(s, n)
    case None => (s, 0)
    case Some(k) => (Allocate(s, k, n), Granted(s, k, n).Payload())
  }

  ghost function Free(s: Layout, p: nat): Layout
    requires p == 0 || Live(s, p)
  {
    if p == 0 then s else Release(s, IndexOf(s, p))
  }

  ghost function Realloc(s: Layout, p: nat, n: nat): (r: (Layout, nat))
    requires Valid(s) && (p == 0 || Live(s, p))
  {
    if p == 0 then Malloc(s, n)
    else if n == 0 then (Free(s, p), 0)
    else if p >= TOTAL then (s, 0)
    else if BlockOf(s, p).size >= n then (s, p)
    else
      var (t, q) := Malloc(s, n);
      if q == 0 then (s, 0) else MallocKeeps(s, n); StaysLive(s, t, p); (Free(t, p), q)
  }

  lemma StaysLive(s: Layout, t: Layout, p: nat)
    requires Live(s, p) && Used(s) <= Used(t)
    ensures Live(t, p)
  {
    LiveUsed(s, p);
    LiveUsed(t, p);
  }

  lemma BlockUsed(s: Layout, p: nat)
    requires Live(s, p)
    ensures BlockOf(s, p) in Used(s) && BlockOf(s, p).Payload() == p
  {}

  lemma BlockIs(s: Layout, b: Block)
    requires Valid(s) && b in Used(s)
    ensures Live(s, b.Payload()) && BlockOf(s, b.Payload()) == b
  {
    var j :| 0 <= j < |s| && s[j] == b;
    IndexUnique(s, j);
  }

  lemma SameBlock(s: Layout, t: Layout, p: nat)
    requires Valid(t) && Live(s, p) && Used(s) <= Used(t)
    ensures Live(t, p) && BlockOf(t, p) == BlockOf(s, p)
  {
    assert BlockOf(s, p) in Used(s);
    BlockIs(t, BlockOf(s, p));
  }

  /** `malloc` fails exactly when no free block is large enough; otherwise one new block joins the live ones. */
  lemma MallocKeeps(s: Layout, n: nat)
    requires Valid(s)
    ensures Valid(Malloc(s, n).0)
    ensures Malloc(s, n).1 == 0 <==> NothingFits(s, n)
    ensures Malloc(s, n).1 == 0 ==> Malloc(s, n).0 == s
    ensures var (t, q) := Malloc(s, n);
            q != 0 ==> !Live(s, q) && Live(t, q) && n <= BlockOf(t, q).size < n + HEADER
                       && Used(t) == Used(s) + {BlockOf(t, q)}
  {
    var r := BestFit(s, n);
    if r.Some? {
      var k := r.value;
      AllocateKeeps(s, k, n);
      var t, g := Allocate(s, k, n), Granted(s, k, n);
      BlockIs(t, g);
      if Live(s, g.Payload()) { SameBlock(s, t, g.Payload()); }
    }
  }

  /**
    `g` is what a best fit for `n` bytes yields: the end of the smallest sufficient
    free block, `n` bytes of it if a header fits in front, else all of it.
   */
  ghost predicate FromBestFit(s: Layout, n: nat, g: Block) {
    exists k :: 0 <= k < |s| && IsBestFit(s, n, k) && g.End() == s[k].End() && g.used
                && g.size == if s[k].size >= n + 16 then n else s[k].size
  }

  /** `malloc` takes the best-fitting block. */
  lemma MallocBest(s: Layout, n: nat)
    requires Valid(s) && Malloc(s, n).1 != 0
    ensures var (t, q) := Malloc(s, n); Live(t, q) && FromBestFit(s, n, BlockOf(t, q))
  {
    MallocKeeps(s, n);
    var k := BestFit(s, n).value;
    AllocateKeeps(s, k, n);
    BlockIs(Allocate(s, k, n), Granted(s, k, n));
    hide Allocate, BlockOf, Valid;
    assert IsBestFit(s, n, k);
  }

  /** `mem_free` removes exactly the block of its argument. */
  lemma FreeKeeps(s: Layout, p: nat)
    requires Valid(s) && Live(s, p)
    ensures Valid(Free(s, p)) && Used(Free(s, p)) == Used(s) - {BlockOf(s, p)} && p != 0
  {
    ReleaseKeeps(s, IndexOf(s, p));
  }

  lemma FreeOther(s: Layout, p: nat, g: Block)
    requires Valid(s) && Live(s, p) && g in Used(s) && g.Payload() != p
    ensures Valid(Free(s, p)) && Used(Free(s, p)) == Used(s) - {BlockOf(s, p)}
    ensures Live(Free(s, p), g.Payload()) && BlockOf(Free(s, p), g.Payload()) == g
  {
    FreeKeeps(s, p);
    BlockIs(Free(s, p), g);
  }

  /** Once a second block `q` is live, freeing `p` leaves `q` in its place. */
  lemma ReallocMoves(s: Layout, m: Layout, p: nat, q: nat)
    requires Valid(s) && Live(s, p)
    requires Valid(m) && Live(m, q) && !Live(s, q) && Used(m) == Used(s) + {BlockOf(m, q)}
    ensures Live(m, p) && BlockOf(m, p) == BlockOf(s, p) && IndexOf(m, p) != IndexOf(m, q)
    ensures BlockOf(m, q) !in Used(s) && BlockOf(s, p) in Used(s)
    ensures var t := Free(m, p);
            Valid(t) && Live(t, q) && BlockOf(t, q) == BlockOf(m, q)
            && Used(t) == Used(s) - {BlockOf(s, p)} + {BlockOf(m, q)}
  {
    hide Valid, Free, Used;
    BlockUsed(s, p);
    BlockUsed(m, q);
    SameBlock(s, m, p);
    FreeOther(m, p, BlockOf(m, q));
    if BlockOf(m, q) in Used(s) { BlockIs(s, BlockOf(m, q)); }
  }

  /** `realloc` of a live block: what becomes of every live block, in each of its outcomes. */
  lemma ReallocKeeps(s: Layout, p: nat, n: nat)
    requires Valid(s) && Live(s, p)
    ensures var (t, q) := Realloc(s, p, n); var b := BlockOf(s, p);
            && Valid(t)
            && (n == 0 ==> q == 0 && Used(t) == Used(s) - {b})
            && (n > 0 && q == 0 ==> t == s)
            && (q != 0 ==> Live(t, q) && BlockOf(t, q).size >= n
                           && Used(t) == Used(s) - {b} + {BlockOf(t, q)})
            && (n > 0 ==> (q == 0 <==> p == TOTAL || (b.size < n && NothingFits(s, n))))
  {
    TilesBounds(s, 0, TOTAL, IndexOf(s, p));
    assert BlockOf(s, p) in Used(s);
    if n == 0 {
      FreeKeeps(s, p);
    } else if p < TOTAL && BlockOf(s, p).size < n {
      MallocKeeps(s, n);
      if Malloc(s, n).1 != 0 { ReallocMoves(s, Malloc(s, n).0, p, Malloc(s, n).1); }
    }
  }

  /** `realloc(NULL, n)` is `malloc(n)`: one block from the best fit, or nothing at all. */
  lemma ReallocNull(s: Layout, n: nat)
    requires Valid(s)
    ensures var (t, q) := Realloc(s, 0, n);
            && Valid(t) && (q == 0 <==> NothingFits(s, n)) && (q == 0 ==> t == s)
            && (q != 0 ==> !Live(s, q) && Live(t, q) && n <= BlockOf(t, q).size < n + 16
                           && Used(t) == Used(s) + {BlockOf(t, q)} && FromBestFit(s, n, BlockOf(t, q)))
  {
    MallocKeeps(s, n);
    if Malloc(s, n).1 != 0 { MallocBest(s, n); }
  }

  /** `realloc` of a block that is large enough does nothing; one that must grow moves to the best fit. */
  lemma ReallocBest(s: Layout, p: nat, n: nat)
    requires Valid(s) && Live(s, p) && 0 < n && p < TOTAL
    ensures n <= BlockOf(s, p).size ==> Realloc(s, p, n) == (s, p)
    ensures var (t, q) := Realloc(s, p, n);
            n > BlockOf(s, p).size ==>
              && (q == 0 <==> NothingFits(s, n)) && (q == 0 ==> t == s)
              && (q != 0 ==> Live(t, q) && !Live(s, q) && FromBestFit(s, n, BlockOf(t, q)))
  {
    hide Malloc, FromBestFit, Free, NothingFits;
    LiveNotNull(s, p);
    if n > BlockOf(s, p).size {
      MallocKeeps(s, n);
      if Malloc(s, n).1 != 0 {
        MallocBest(s, n);
        ReallocMoves(s, Malloc(s, n).0, p, Malloc(s, n).1);
      }
    }
  }

  lemma LiveNotNull(s: Layout, p: nat)
    requires Live(s, p)
    ensures p != 0
  {}

  /** NULL is freed without effect. */
  lemma FreeNull(s: Layout)
    ensures Free(s, 0) == s
  {}

  /** `malloc` undone at once by `mem_free` restores the identical node list. */
  lemma MallocThenFree(s: Layout, n: nat)
    requires Valid(s) && Malloc(s, n).1 != 0
    ensures var (t, q) := Malloc(s, n); Live(t, q) && Free(t, q) == s
  {
    MallocKeeps(s, n);
    var (t, q) := Malloc(s, n);
    hide Malloc, Free, BestFit;
    FreeKeeps(t, q);
    NewBlock(s, t, q);
    Canonical(Free(t, q), s, 0, TOTAL);
  }

  lemma NewBlock(s: Layout, t: Layout, q: nat)
    requires !Live(s, q) && Live(t, q)
    ensures BlockOf(t, q) !in Used(s)
  {
    LiveUsed(s, q);
  }

  // ------------------------------------------------------------ whole runs

  datatype Op = OpMalloc(n: nat) | OpFree(p: nat) | OpRealloc(p: nat, n: nat)

  /** A client may free or resize only NULL or a pointer it holds. */
  ghost predicate Allowed(s: Layout, op: Op) {
    match op
    case OpMalloc(_) => true
    case OpFree(p) => p == 0 || Live(s, p)
    case OpRealloc(p, _) => p == 0 || Live(s, p)
  }

  ghost function Step(s: Layout, op: Op): Layout
    requires Valid(s) && Allowed(s, op)
  {
    match op
    case OpMalloc(n) => Malloc(s, n).0
    case OpFree(p) => Free(s, p)
    case OpRealloc(p, n) => Realloc(s, p, n).0
  }

  lemma StepKeeps(s: Layout, op: Op)
    requires Valid(s) && Allowed(s, op)
    ensures Valid(Step(s, op))
  {
    match op
    case OpMalloc(n) => MallocKeeps(s, n);
    case OpFree(p) => if p != 0 { FreeKeeps(s, p); }
    case OpRealloc(p, n) => if p != 0 { ReallocKeeps(s, p, n); } else { MallocKeeps(s, n); }
  }

  /** Each call of the run is allowed when it is made. */
  ghost predicate CanRun(s: Layout, ops: seq<Op>)
    requires Valid(s)
    decreases |ops|
  {
    ops == [] || (Allowed(s, ops[0]) && (StepKeeps(s, ops[0]); CanRun(Step(s, ops[0]), ops[1..])))
  }

  /** The layout a run of allowed calls ends in. */
  ghost function RunOf(s: Layout, ops: seq<Op>): Layout
    requires Valid(s) && CanRun(s, ops)
    decreases |ops|
  {
    if ops == [] then s else StepKeeps(s, ops[0]); RunOf(Step(s, ops[0]), ops[1..])
  }

  /** Over every run: the nodes tile the array, no two free nodes touch, and no byte is lost. */
  lemma {:induction false} RunKeeps(s: Layout, ops: seq<Op>)
    requires Valid(s) && CanRun(s, ops)
    ensures Valid(RunOf(s, ops)) && Footprint(RunOf(s, ops)) == 1048576
    decreases |ops|
  {
    if ops == [] {
      Conservation(s, 0, TOTAL);
    } else {
      StepKeeps(s, ops[0]);
      RunKeeps(Step(s, ops[0]), ops[1..]);
    }
  }

  /** Whether a call hands the pointer `p` back. */
  predicate Takes(op: Op, p: nat) {
    op == OpFree(p) || (op.OpRealloc? && op.p == p)
  }

  lemma StepKeepsOthers(s: Layout, op: Op, b: Block)
    requires Valid(s) && Allowed(s, op) && b in Used(s) && !Takes(op, b.Payload())
    ensures Valid(Step(s, op)) && b in Used(Step(s, op))
  {
    StepKeeps(s, op);
    hide Malloc, Free;
    match op
    case OpMalloc(n) => MallocKeeps(s, n);
    case OpFree(p) => if p != 0 { FreeKeeps(s, p); }
    case OpRealloc(p, n) => if p != 0 { ReallocKeeps(s, p, n); } else { MallocKeeps(s, n); }
  }

  /** A live block stays where it is until a call takes its pointer. */
  lemma {:induction false} RunKeepsOthers(s: Layout, ops: seq<Op>, b: Block)
    requires Valid(s) && CanRun(s, ops) && b in Used(s) && forall op :: op in ops ==> !Takes(op, b.Payload())
    ensures b in Used(RunOf(s, ops))
    decreases |ops|
  {
    if ops != [] {
      StepKeepsOthers(s, ops[0], b);
      RunKeepsOthers(Step(s, ops[0]), ops[1..], b);
    }
  }

  ghost predicate Distinct(ps: seq<nat>) {
    forall i, j :: 0 <= i < j < |ps| ==> ps[i] != ps[j]
  }

  function Frees(ps: seq<nat>): seq<Op> {
    seq(|ps|, i requires 0 <= i < |ps| => OpFree(ps[i]))
  }

  lemma LiveAfterFree(s: Layout, p: nat, q: nat)
    requires Valid(s) && Live(s, p)
    ensures Live(Free(s, p), q) <==> Live(s, q) && q != p
  {
    hide Release, Free, Valid;
    FreeKeeps(s, p);
    var t := Free(s, p);
    if Live(t, q) {
      BlockUsed(t, q);
      BlockIs(s, BlockOf(t, q));
    }
    if Live(s, q) && q != p { BlockUsed(s, q); FreeOther(s, p, BlockOf(s, q)); }
  }

  /** The pointers `ps` are exactly the live ones, each listed once. */
  ghost predicate Lists(s: Layout, ps: seq<nat>) {
    Distinct(ps) && forall p :: p in ps <==> Live(s, p)
  }

  lemma FreeFirst(s: Layout, ps: seq<nat>)
    requires Valid(s) && Lists(s, ps) && ps != []
    ensures Live(s, ps[0]) && Valid(Free(s, ps[0])) && Lists(Free(s, ps[0]), ps[1..])
  {
    var p := ps[0];
    assert p in ps && ps == [p] + ps[1..];
    FreeKeeps(s, p);
    hide Free, Live, Valid;
    forall q ensures q in ps[1..] <==> Live(Free(s, p), q) { LiveAfterFree(s, p, q); }
  }

  /** Freeing every live block, in whatever order, leads back to the initial single node. */
  lemma {:induction false} FreeAllInAnyOrder(s: Layout, ps: seq<nat>)
    requires Valid(s) && Lists(s, ps)
    ensures CanRun(s, Frees(ps)) && RunOf(s, Frees(ps)) == Initial
    decreases |ps|
  {
    hide Free, Live, Valid, Lists;
    if ps == [] {
      NoPointersLive(s);
    } else {
      FreeFirst(s, ps);
      FreeAllInAnyOrder(Free(s, ps[0]), ps[1..]);
      assert Frees(ps)[1..] == Frees(ps[1..]) && Frees(ps)[0] == OpFree(ps[0]);
    }
  }

  lemma NoPointersLive(s: Layout)
    requires Valid(s) && Lists(s, [])
    ensures s == Initial
  {
    forall b | b in Used(s) ensures b.Payload() in [] { BlockIs(s, b); }
    assert Used(s) == {};
    NothingLive(s);
  }

  // ---------------------------------------------------- fragmentation bound

  ghost function UsedCount(s: Layout): nat {
    if s == [] then 0 else (if s[0].used then 1 else 0) + UsedCount(s[1..])
  }

  ghost function FreeCount(s: Layout): nat {
    if s == [] then 0 else (if s[0].used then 0 else 1) + FreeCount(s[1..])
  }

  ghost function FreeBytes(s: Layout): nat {
    if s == [] then 0 else (if s[0].used then 0 else s[0].size) + FreeBytes(s[1..])
  }

  lemma {:induction false} FreeBetweenUsed(s: Layout)
    requires Coalesced(s)
    ensures FreeCount(s) <= UsedCount(s) + (if s != [] && s[0].used then 0 else 1)
  {
    if |s| > 1 {
      assert s[0].used || s[1].used;
      FreeBetweenUsed(s[1..]);
    } else if |s| == 1 {
      assert s[1..] == [];
    }
  }

  lemma {:induction false} FreeBytesBound(s: Layout, n: nat)
    requires NothingFits(s, n)
    ensures FreeBytes(s) <= FreeCount(s) * (n - 1)
  {
    if s != [] {
      FreeBytesBound(s[1..], n);
      assert s[0] in s;
    }
  }

  /** When `malloc(n)` fails with U live blocks, at most (U + 1) * (n - 1) payload bytes are free. */
  lemma FailureBound(s: Layout, n: nat)
    requires Valid(s) && Malloc(s, n).1 == 0
    ensures FreeBytes(s) <= FreeCount(s) * (n - 1) && FreeCount(s) <= UsedCount(s) + 1
    ensures n > 0 ==> FreeBytes(s) <= (UsedCount(s) + 1) * (n - 1)
  {
    MallocKeeps(s, n);
    FreeBytesBound(s, n);
    FreeBetweenUsed(s);
    if n > 0 { MulMonotone(FreeCount(s), UsedCount(s) + 1, n - 1); }
  }

  lemma MulMonotone(a: nat, b: nat, c: nat)
    requires a <= b
    ensures a * c <= b * c
  {}
}
