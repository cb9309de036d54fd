/**
  The kernel heap of `kernel/mm.c`: headers and payloads in one byte array.

  Headers are 16 bytes (size, used, next, prev), stored unaligned wherever an
  allocation puts them. The methods read and write header bytes exactly as the
  C functions do; the ghost field `nodes` names the layout those bytes denote.
 */
module Heap {
  import opened Bytes
  import opened Common
  import L = HeapLayout

  /** A header as it lies in memory; `next` and `prev` are addresses, 0 for NULL. */
  datatype Header = Header(size: nat, used: nat, next: nat, prev: nat)

  // ------------------------------------------------ the headers of a layout

  ghost function PointerTo(s: L.Layout, base: nat, i: int): nat {
    if 0 <= i < |s| then base + s[i].addr else 0
  }

  /** The header block `i` must have: its own size and flag, and the addresses of its neighbours. */
  ghost function Linked(s: L.Layout, base: nat, i: nat): Header
    requires i < |s|
  {
    Header(s[i].size, if s[i].used then 1 else 0, PointerTo(s, base, i + 1), PointerTo(s, base, i - 1))
  }

  ghost function Links(s: L.Layout, base: nat): (hs: seq<Header>)
    ensures |hs| == |s|
  {
    seq(|s|, i requires 0 <= i < |s| => Linked(s, base, i))
  }

  datatype Field = Size | Used | Next | Prev {
    function Offset(): nat {
      match this case Size => 0 case Used => 4 case Next => 8 case Prev => 12
    }
  }

  function Update(h: Header, f: Field, v: nat): Header {
    match f
    case Size => h.(size := v)
    case Used => h.(used := v)
    case Next => h.(next := v)
    case Prev => h.(prev := v)
  }

  /** The headers `hs` with one field of header `i` set to `v`. */
  ghost function With(hs: seq<Header>, i: nat, f: Field, v: nat): (r: seq<Header>)
    requires i < |hs|
    ensures |r| == |hs|
  {
    hs[i := Update(hs[i], f, v)]
  }

  /** `hs` holds the headers of `s`, except that room was made for a new header after block `k`. */
  ghost predicate OpenedAfter(s: L.Layout, base: nat, k: nat, hs: seq<Header>) {
    && |hs| == |s| + 1
    && (forall j :: 0 <= j <= k < |s| ==> hs[j] == Linked(s, base, j))
    && (forall j :: k + 1 < j < |hs| ==> hs[j] == Linked(s, base, j - 1))
  }

  /** The headers `hs` after the header writes of a split: block `k`, the new one, and the one after it. */
  ghost predicate Carved(hs: seq<Header>, r: seq<Header>, k: nat, size: nat, g: nat, carved: Header)
    requires k + 1 < |hs|
  {
    && |r| == |hs|
    && (forall j :: 0 <= j < |hs| && j != k && j != k + 1 && j != k + 2 ==> r[j] == hs[j])
    && r[k] == hs[k].(next := g, size := size) && r[k + 1] == carved
    && (k + 2 < |hs| ==> r[k + 2] == hs[k + 2].(prev := g))
  }

  lemma CarvedLinks(s: L.Layout, base: nat, k: nat, n: nat, hs: seq<Header>, r: seq<Header>)
    requires k < |s| && !s[k].used && L.Splits(s[k], n) && OpenedAfter(s, base, k, hs)
    requires Carved(hs, r, k, s[k].size - (n + L.HEADER), base + s[k].End() - n - L.HEADER,
                    Header(n, 1, PointerTo(s, base, k + 1), base + s[k].addr))
    ensures r == Links(L.Allocate(s, k, n), base)
  {
    hide L.Allocate, L.Splits;
    L.SplitShape(s, k, n);
    var t := L.Allocate(s, k, n);
    forall j | 0 <= j < |t| ensures r[j] == Linked(t, base, j) {
      if j < k {
        assert r[j] == hs[j] && PointerTo(t, base, j + 1) == PointerTo(s, base, j + 1);
      } else if j > k + 2 {
        assert r[j] == hs[j] == Linked(s, base, j - 1) && PointerTo(t, base, j - 1) == PointerTo(s, base, j - 2);
      }
    }
  }

  /** The four header writes of a split turn the headers of `s` into those of the split layout. */
  lemma CarveLinks(s: L.Layout, base: nat, k: nat, n: nat, hs: seq<Header>)
    requires k < |s| && !s[k].used && L.Splits(s[k], n) && OpenedAfter(s, base, k, hs)
    ensures var g := base + s[k].End() - n - L.HEADER;
            var a := hs[k + 1 := Header(n, 1, PointerTo(s, base, k + 1), base + s[k].addr)];
            var b := if k + 1 < |s| then With(a, k + 2, Prev, g) else a;
            With(With(b, k, Next, g), k, Size, s[k].size - (n + L.HEADER)) == Links(L.Allocate(s, k, n), base)
  {
    hide L.Allocate, Linked, Links, PointerTo;
    var g := base + s[k].End() - n - L.HEADER;
    var a := hs[k + 1 := Header(n, 1, PointerTo(s, base, k + 1), base + s[k].addr)];
    var b := if k + 1 < |s| then With(a, k + 2, Prev, g) else a;
    var r := With(With(b, k, Next, g), k, Size, s[k].size - (n + L.HEADER));
    CarvedLinks(s, base, k, n, hs, r);
  }

  /** `hs` holds the headers of `s` without that of block `k + 1`. */
  ghost predicate ClosedAfter(s: L.Layout, base: nat, k: nat, hs: seq<Header>) {
    && |hs| == |s| - 1
    && (forall j :: 0 <= j <= k < |hs| ==> hs[j] == Linked(s, base, j))
    && (forall j :: k < j < |hs| ==> hs[j] == Linked(s, base, j + 1))
  }

  /** The header writes of a merge turn the headers of `s` into those of the merged layout. */
  lemma MergeLinks(s: L.Layout, base: nat, k: nat, hs: seq<Header>)
    requires k + 1 < |s| && !s[k + 1].used && ClosedAfter(s, base, k, hs)
    ensures var a := With(hs, k, Size, s[k].size + (s[k + 1].size + L.HEADER));
            var b := With(a, k, Next, PointerTo(s, base, k + 2));
            var c := if k + 2 < |s| then With(b, k + 1, Prev, base + s[k].addr) else b;
            c == Links(L.MergeNext(s, k), base)
  {
    hide L.MergeNext;
    L.MergeShape(s, k);
    var t := L.MergeNext(s, k);
    var a := With(hs, k, Size, s[k].size + (s[k + 1].size + L.HEADER));
    var b := With(a, k, Next, PointerTo(s, base, k + 2));
    var c := if k + 2 < |s| then With(b, k + 1, Prev, base + s[k].addr) else b;
    forall j | 0 <= j < |t| ensures c[j] == Linked(t, base, j) {
      if j < k { assert c[j] == hs[j]; }
      else if j > k + 1 { assert c[j] == hs[j]; }
    }
  }

  lemma MarkLinks(s: L.Layout, base: nat, k: nat, u: bool)
    requires k < |s|
    ensures With(Links(s, base), k, Used, if u then 1 else 0) == Links(L.Mark(s, k, u), base)
  {
    var t := L.Mark(s, k, u);
    var r := With(Links(s, base), k, Used, if u then 1 else 0);
    forall j | 0 <= j < |t| ensures r[j] == Linked(t, base, j) {}
  }

  class Allocator {
    const area: array<byte>
    const base: nat
    ghost var nodes: L.Layout

    /** The 16 bytes at offset `a`, read as a header. */
    function HeaderAt(a: nat): Header
      requires a + L.HEADER <= area.Length
      reads area
    {
      Header(Word(area, a), Word(area, a + 4), Word(area, a + 8), Word(area, a + 12))
    }

    /** A layout that covers the array. */
    ghost predicate Covers(s: L.Layout) {
      area.Length == L.TOTAL && 0 < base && base + L.TOTAL < WORD_LIMIT && L.Tiles(s, 0, L.TOTAL)
      && forall i :: 0 <= i < |s| ==> s[i].addr + L.HEADER + s[i].size <= area.Length
    }

    /** What memory holds where the headers of `s` should be. */
    ghost function Headers(s: L.Layout): (hs: seq<Header>)
      requires Covers(s)
      reads area
      ensures |hs| == |s|
    {
      seq(|s|, i requires 0 <= i < |s| reads area => HeaderAt(s[i].addr))
    }

    ghost predicate Denotes(s: L.Layout)
      reads area
    {
      Covers(s) && Headers(s) == Links(s, base)
    }

    ghost predicate Valid()
      reads this, area
    {
      Denotes(nodes) && L.Valid(nodes)
    }

    lemma CoversTiled(s: L.Layout)
      requires area.Length == L.TOTAL && 0 < base && base + L.TOTAL < WORD_LIMIT && L.Tiles(s, 0, L.TOTAL)
      ensures Covers(s)
    {
      L.HeadersApart(s);
    }

    /** `init_dynamic_mem`: one free node over the whole array, which lies at address `base`. */
    constructor (area: array<byte>, base: nat)
      requires area.Length == L.TOTAL && 0 < base && base + L.TOTAL < WORD_LIMIT
      modifies area
      ensures this.area == area && this.base == base
      ensures nodes == L.Initial && Valid()
    {
      this.area, this.base, nodes := area, base, L.Initial;
      new;
      L.InitialValid();
      CoversTiled(L.Initial);
      hide HeaderAt;
      PutField(0, Size, L.TOTAL - L.HEADER);
      PutField(0, Next, 0);
      PutField(0, Prev, 0);
      PutField(0, Used, 0);
      assert HeaderAt(0) == Linked(L.Initial, base, 0);
      assert Headers(L.Initial) == Links(L.Initial, base);
    }

    /** The payload bytes of a block. */
    ghost function Payload(b: L.Block): seq<byte>
      reads area
    {
      if b.End() <= area.Length then area[b.Payload()..b.End()] else []
    }

    // ------------------------------------------------------ header accesses

    method PutField(a: nat, f: Field, v: nat)
      requires a + L.HEADER <= area.Length && v < WORD_LIMIT
      modifies area
      ensures HeaderAt(a) == Update(old(HeaderAt(a)), f, v)
      ensures forall b: nat :: b + L.HEADER <= a || a + L.HEADER <= b <= area.Length - L.HEADER ==>
                                 HeaderAt(b) == old(HeaderAt(b))
      ensures forall x :: 0 <= x < area.Length && !(a <= x < a + L.HEADER) ==> area[x] == old(area[x])
    {
      PutWord(area, a + f.Offset(), v);
    }

    /** Assigns one header field; the other headers of the layout and all payloads keep their bytes. */
    method Set(a: nat, f: Field, v: nat, ghost s: L.Layout, ghost i: nat)
      requires Covers(s) && i < |s| && a == s[i].addr && v < WORD_LIMIT
      modifies area
      ensures Headers(s) == With(old(Headers(s)), i, f, v)
      ensures forall b :: b in s ==> Payload(b) == old(Payload(b))
    {
      hide HeaderAt, Update;
      L.HeadersApart(s);
      PutField(a, f, v);
      assert forall j :: 0 <= j < |s| && j != i ==> HeaderAt(s[j].addr) == old(HeaderAt(s[j].addr));
      forall b | b in s ensures Payload(b) == old(Payload(b)) {
        hide Headers;
        var j :| 0 <= j < |s| && s[j] == b;
      }
    }

    /** Writes all four fields of a header. */
    method SetAll(a: nat, h: Header, ghost s: L.Layout, ghost i: nat)
      requires Covers(s) && i < |s| && a == s[i].addr
      requires h.size < WORD_LIMIT && h.used < WORD_LIMIT && h.next < WORD_LIMIT && h.prev < WORD_LIMIT
      modifies area
      ensures Headers(s) == old(Headers(s))[i := h]
      ensures forall b :: b in s ==> Payload(b) == old(Payload(b))
    {
      hide HeaderAt, Payload, Headers;
      Set(a, Size, h.size, s, i);
      Set(a, Used, h.used, s, i);
      Set(a, Next, h.next, s, i);
      Set(a, Prev, h.prev, s, i);
    }

    /** Reads the header at address `p`, the one of block `i`. */
    method Load(p: nat, ghost i: nat) returns (h: Header)
      requires Denotes(nodes) && i < |nodes| && p == base + nodes[i].addr
      ensures h == Linked(nodes, base, i) && h.size < L.TOTAL
    {
      L.TilesBounds(nodes, 0, L.TOTAL, i);
      h := HeaderAt(p - base);
      assert h == Headers(nodes)[i];
    }

    /** `find_best_mem_block`: walks the list through the `next` fields. */
    method FindBest(n: nat) returns (best: nat)
      requires Valid()
      ensures match L.BestFit(nodes, n)
              case None => best == 0
              case Some(k) => k < |nodes| && best == base + nodes[k].addr
    {
      hide HeaderAt, Payload, L.BestFit;
      assert L.BestFit(nodes[..0], n).None?;
      best := 0;
      var bestSize := L.TOTAL + 1;
      L.TilesBounds(nodes, 0, L.TOTAL, 0) by { assert nodes != []; }
      var cur := base;
      ghost var i, found: Option<nat> := 0, None;
      while cur != 0
        invariant 0 <= i <= |nodes| && cur == PointerTo(nodes, base, i)
        invariant found == L.BestFit(nodes[..i], n)
        invariant found.None? ==> best == 0 && bestSize == L.TOTAL + 1
        invariant found.Some? ==> found.value < i && best == base + nodes[found.value].addr
                                  && bestSize == nodes[found.value].size
        decreases |nodes| - i
      {
        var h := Load(cur, i);
        L.BestFitNext(nodes, n, i);
        if h.used == 0 && h.size >= n && h.size <= bestSize {
          best, bestSize := cur, h.size;
          found := Some(i);
        }
        cur := h.next;
        i := i + 1;
      }
      assert nodes[..i] == nodes;
    }

    lemma OpenHeaders(s: L.Layout, k: nat, n: nat)
      requires Denotes(s) && k < |s| && L.Splits(s[k], n) && Covers(L.Allocate(s, k, n))
      ensures OpenedAfter(s, base, k, Headers(L.Allocate(s, k, n)))
    {
      hide HeaderAt, Covers;
      var t := L.Allocate(s, k, n);
      forall j | 0 <= j <= k ensures Headers(t)[j] == Linked(s, base, j) {
        assert t[j].addr == s[j].addr && Headers(t)[j] == Headers(s)[j];
      }
      forall j | k + 1 < j < |t| ensures Headers(t)[j] == Linked(s, base, j - 1) {
        assert t[j] == s[j - 1] && Headers(t)[j] == Headers(s)[j - 1];
      }
    }

    /** Splitting: the tail of block `k` becomes a used block of `n` bytes. */
    method Carve(block: nat, h: Header, n: nat, ghost k: nat) returns (p: nat)
      requires Denotes(nodes) && k < |nodes| && block == base + nodes[k].addr && h == Linked(nodes, base, k)
      requires !nodes[k].used && L.Splits(nodes[k], n)
      modifies area, this`nodes
      ensures nodes == L.Allocate(old(nodes), k, n) && Denotes(nodes)
      ensures p == base + L.Granted(old(nodes), k, n).Payload()
      ensures forall b :: b in nodes ==> Payload(b) == old(Payload(b))
    {
      hide HeaderAt, Payload, Headers, With, Links, L.Allocate;
      ghost var s, t := nodes, L.Allocate(nodes, k, n);
      L.SplitShape(s, k, n);
      L.AllocateTiles(s, k, n);
      CoversTiled(t);
      OpenHeaders(s, k, n);
      CarveLinks(s, base, k, n, Headers(t));
      var a := block - base;
      var carved := a + L.HEADER + h.size - n - L.HEADER;
      SetAll(carved, Header(n, 1, h.next, block), t, k + 1);
      if h.next != 0 {
        Set(h.next - base, Prev, base + carved, t, k + 2);
      }
      Set(a, Next, base + carved, t, k);
      Set(a, Size, h.size - (n + L.HEADER), t, k);
      p := base + carved + L.HEADER;
      nodes := t;
    }

    /** Sets the flag of block `k`. */
    method SetFlag(block: nat, u: bool, ghost k: nat)
      requires Denotes(nodes) && k < |nodes| && block == base + nodes[k].addr
      modifies area, this`nodes
      ensures nodes == L.Mark(old(nodes), k, u) && Denotes(nodes)
      ensures forall b: L.Block :: b in nodes ==> Payload(b) == old(Payload(b))
    {
      ghost var s, t := nodes, L.Mark(nodes, k, u);
      L.MarkTiles(s, k, u);
      CoversTiled(t);
      assert Headers(t) == Headers(s);
      hide HeaderAt, Payload, Headers, With, Links, L.Mark;
      MarkLinks(s, base, k, u);
      Set(block - base, Used, if u then 1 else 0, t, k);
      nodes := t;
    }

    /** `malloc`. */
    method Malloc(n: nat) returns (p: nat)
      requires Valid() && n < WORD_LIMIT
      modifies area, this`nodes
      ensures Valid() && nodes == L.Malloc(old(nodes), n).0
      ensures p == (if L.Malloc(old(nodes), n).1 == 0 then 0 else base + L.Malloc(old(nodes), n).1)
      ensures forall b :: b in L.Used(old(nodes)) ==> Payload(b) == old(Payload(b))
    {
      hide HeaderAt, Payload, Headers, With, Links, L.Allocate, L.BestFit;
      L.MallocKeeps(nodes, n);
      var block := FindBest(n);
      if block == 0 {
        return 0;
      }
      ghost var k := L.BestFit(nodes, n).value;
      var h := Load(block, k);
      if h.size >= (n + L.HEADER) % WORD_LIMIT {
        p := Carve(block, h, n, k);
      } else {
        L.WholeShape(nodes, k, n);
        SetFlag(block, true, k);
        p := block + L.HEADER;
      }
    }

    lemma CloseHeaders(s: L.Layout, k: nat)
      requires Denotes(s) && k + 1 < |s| && !s[k + 1].used && Covers(L.MergeNext(s, k))
      ensures ClosedAfter(s, base, k, Headers(L.MergeNext(s, k)))
    {
      hide HeaderAt, Covers, L.MergeNext;
      L.MergeShape(s, k);
      var t := L.MergeNext(s, k);
      forall j | 0 <= j <= k ensures Headers(t)[j] == Linked(s, base, j) {
        assert t[j].addr == s[j].addr && Headers(t)[j] == Headers(s)[j];
      }
      forall j | k < j < |t| ensures Headers(t)[j] == Linked(s, base, j + 1) {
        assert t[j] == s[j + 1] && Headers(t)[j] == Headers(s)[j + 1];
      }
    }

    /** The three header writes both merge helpers make: block `k` swallows the free block after it. */
    method Absorb(node: nat, h: Header, gone: Header, ghost k: nat)
      requires Denotes(nodes) && k + 1 < |nodes| && !nodes[k + 1].used
      requires node == base + nodes[k].addr && h == Linked(nodes, base, k) && gone == Linked(nodes, base, k + 1)
      modifies area, this`nodes
      ensures nodes == L.MergeNext(old(nodes), k) && Denotes(nodes)
      ensures forall b: L.Block :: b in nodes ==> Payload(b) == old(Payload(b))
    {
      hide HeaderAt, Payload, Headers, With, Links, L.MergeNext;
      ghost var s, t := nodes, L.MergeNext(nodes, k);
      L.MergeShape(s, k);
      L.MergeTiles(s, k);
      CoversTiled(t);
      CloseHeaders(s, k);
      MergeLinks(s, base, k, Headers(t));
      L.TilesBounds(t, 0, L.TOTAL, k);
      Set(node - base, Size, h.size + (gone.size + L.HEADER), t, k);
      Set(node - base, Next, gone.next, t, k);
      if gone.next != 0 {
        Set(gone.next - base, Prev, node, t, k + 1);
      }
      nodes := t;
    }

    /** `merge_next_node_into_current`. */
    method MergeNextIntoCurrent(node: nat, ghost k: nat)
      requires Denotes(nodes) && k < |nodes| && node == base + nodes[k].addr
      modifies area, this`nodes
      ensures nodes == L.MergeNext(old(nodes), k) && Denotes(nodes)
      ensures forall b: L.Block :: b in nodes ==> Payload(b) == old(Payload(b))
    {
      hide HeaderAt, Payload, Headers, With, Links;
      var h := Load(node, k);
      if h.next != 0 {
        var next := Load(h.next, k + 1);
        if next.used == 0 {
          Absorb(node, h, next, k);
        }
      }
    }

    /** `merge_current_node_into_previous`. */
    method MergeCurrentIntoPrevious(node: nat, ghost k: nat)
      requires Denotes(nodes) && k < |nodes| && node == base + nodes[k].addr && !nodes[k].used
      modifies area, this`nodes
      ensures nodes == L.MergePrevious(old(nodes), k) && Denotes(nodes)
      ensures forall b: L.Block :: b in nodes ==> Payload(b) == old(Payload(b))
    {
      hide HeaderAt, Payload, Headers, With, Links;
      var h := Load(node, k);
      if h.prev != 0 {
        var prev := Load(h.prev, k - 1);
        if prev.used == 0 {
          Absorb(h.prev, prev, h, k - 1);
        }
      }
    }

    /** Whether `p` is a pointer a client may pass back: NULL or the payload of a live block. */
    ghost predicate Held(p: nat)
      reads this
    {
      p == 0 || (p >= base && L.Live(nodes, p - base))
    }

    /** `mem_free`. */
    method MemFree(p: nat)
      requires Valid() && Held(p)
      modifies area, this`nodes
      ensures Valid() && nodes == L.Free(old(nodes), if p == 0 then 0 else p - base)
      ensures forall b :: b in L.Used(nodes) ==> Payload(b) == old(Payload(b))
    {
      hide HeaderAt, Payload, Headers, With, Links, L.Mark, L.MergeNext, L.MergePrevious, L.Used;
      if p == 0 {
        return;
      }
      ghost var k := L.IndexOf(nodes, p - base);
      L.FreeKeeps(nodes, p - base);
      L.ReleaseStages(nodes, k);
      var node := p - L.HEADER;
      if node == 0 {
        return;
      }
      SetFlag(node, false, k);
      MergeNextIntoCurrent(node, k);
      MergeCurrentIntoPrevious(node, k);
    }

    /** The copy loop of `realloc`, which reads the length from the old header in every round. */
    method CopyBytes(src: nat, dst: nat, ghost len: nat)
      requires L.HEADER <= src && src + len <= area.Length && dst + len <= area.Length
      requires Word(area, src - L.HEADER) == len
      requires dst + len <= src - L.HEADER || src + len <= dst
      modifies area
      ensures area[dst..dst + len] == old(area[src..src + len])
      ensures forall x :: 0 <= x < area.Length && !(dst <= x < dst + len) ==> area[x] == old(area[x])
    {
      var c := 0;
      while c < Word(area, src - L.HEADER)
        invariant 0 <= c <= len && Word(area, src - L.HEADER) == len
        invariant forall x :: 0 <= x < area.Length && !(dst <= x < dst + c) ==> area[x] == old(area[x])
        invariant area[dst..dst + c] == old(area[src..src + c])
        decreases len - c
      {
        area[dst + c] := area[src + c];
        c := c + 1;
      }
    }

    method CopyPayload(src: nat, dst: nat, ghost i: nat, ghost j: nat)
      requires Denotes(nodes) && i < |nodes| && j < |nodes| && i != j && nodes[i].size <= nodes[j].size
      requires src == nodes[i].Payload() && dst == nodes[j].Payload()
      modifies area
      ensures Denotes(nodes)
      ensures Payload(nodes[i]) <= Payload(nodes[j])
      ensures forall b :: b in nodes && b != nodes[j] ==> Payload(b) == old(Payload(b))
    {
      hide HeaderAt, Headers, Links, Word, L.Tiles;
      SizeWord(i);
      BlocksApart(i, j);
      ghost var n := nodes[i].size;
      CopyBytes(src, dst, n);
      CopyHeaders(j);
      CopyOthers(j);
      PayloadFront(nodes[j], n);
    }

    lemma PayloadFront(b: L.Block, n: nat)
      requires b.End() <= area.Length && n <= b.size
      ensures area[b.Payload()..b.Payload() + n] <= Payload(b)
    {
      var p := Payload(b);
      assert p[..n] == area[b.Payload()..b.Payload() + n];
    }

    lemma BlocksApart(i: nat, j: nat)
      requires Covers(nodes) && i < |nodes| && j < |nodes| && i != j
      ensures nodes[i].End() <= area.Length && nodes[j].End() <= area.Length
      ensures nodes[i].End() <= nodes[j].addr || nodes[j].End() <= nodes[i].addr
    {
      L.HeadersApart(nodes);
    }

    lemma SizeWord(i: nat)
      requires Denotes(nodes) && i < |nodes|
      ensures Word(area, nodes[i].addr) == nodes[i].size
    {
      assert HeaderAt(nodes[i].addr) == Headers(nodes)[i];
    }

    /** Changing payload bytes of block `j` alone disturbs no header. */
    twostate lemma CopyHeaders(j: nat)
      requires old(Denotes(nodes)) && nodes == old(nodes) && j < |nodes|
      requires forall x :: 0 <= x < area.Length && !(nodes[j].Payload() <= x < nodes[j].End()) ==>
              area[x] == old(area[x])
      ensures Denotes(nodes)
    {
      L.HeadersApart(nodes);
      assert forall i :: 0 <= i < |nodes| ==> HeaderAt(nodes[i].addr) == old(HeaderAt(nodes[i].addr));
      hide HeaderAt;
      assert Headers(nodes) == old(Headers(nodes));
    }

    /** Nor does it change another block's payload. */
    twostate lemma CopyOthers(j: nat)
      requires Covers(nodes) && nodes == old(nodes) && j < |nodes|
      requires forall x :: 0 <= x < area.Length && !(nodes[j].Payload() <= x < nodes[j].End()) ==>
              area[x] == old(area[x])
      ensures forall b :: b in nodes && b != nodes[j] ==> Payload(b) == old(Payload(b))
    {
      hide Covers, L.Tiles;
      forall b | b in nodes && b != nodes[j] ensures Payload(b) == old(Payload(b)) {
        var i :| 0 <= i < |nodes| && nodes[i] == b;
        BlocksApart(i, j);
      }
    }

    /** `realloc`. */
    method Realloc(p: nat, n: nat) returns (q: nat)
      requires Valid() && Held(p) && n < WORD_LIMIT
      modifies area, this`nodes
      ensures Valid() && nodes == L.Realloc(old(nodes), if p == 0 then 0 else p - base, n).0
      ensures var r := L.Realloc(old(nodes), if p == 0 then 0 else p - base, n).1; q == if r == 0 then 0 else base + r
      ensures p != 0 && q != 0 ==> && L.Live(nodes, q - base)
                                   && old(Payload(L.BlockOf(nodes, p - base))) <= Payload(L.BlockOf(nodes, q - base))
      ensures forall b :: b in L.Used(old(nodes)) && b in L.Used(nodes) ==> Payload(b) == old(Payload(b))
    {
      hide HeaderAt, Payload, Headers, With, Links, L.BestFit, L.Release, L.Malloc, L.Free;
      if p == 0 {
        q := Malloc(n);
        return;
      }
      if n == 0 {
        MemFree(p);
        return 0;
      }
      if p < base || p >= base + L.TOTAL {
        return 0;
      }
      ghost var s, o := nodes, p - base;
      var h := Load(p - L.HEADER, L.IndexOf(s, o));
      if h.size >= n {
        return p;
      }
      L.MallocKeeps(s, n);
      q := Malloc(n);
      if q == 0 {
        return 0;
      }
      ghost var m := nodes;
      L.ReallocMoves(s, m, o, q - base);
      ghost var b, g := L.BlockOf(s, o), L.BlockOf(m, q - base);
      assert Payload(b) == old(Payload(b));
      CopyPayload(p - base, q - base, L.IndexOf(m, o), L.IndexOf(m, q - base));
      assert old(Payload(b)) <= Payload(g);
      MemFree(p);
    }
  }
}
