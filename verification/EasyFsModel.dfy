/**
  EasyFS (`fs/easyfs.c`) as a value: the directory, the block bitmap, the
  free-block counter and the data area, with the operations on them.

  `EasyFs.dfy` proves that the byte-level code follows these operations. Here
  we prove what every run of them keeps, and that a volume refines a map from
  file names to byte strings.
 */
module EasyFsModel {
  import opened Bytes
  import opened Common

  const BLOCK_SIZE: nat := 4096
  const TOTAL_BLOCKS: nat := 1024
  const MAX_FILENAME_LEN: nat := 16
  const MAX_DIR_ENTRIES: nat := 64
  const NUM_DATA_BLOCKS: nat := 1021
  const FIRST_DATA_BLOCK: nat := 3

  type Name = seq<byte>

  datatype Entry = Entry(name: Name, size: nat, first: nat, used: bool)

  /** `data` holds the bytes of the blocks from `FIRST_DATA_BLOCK` on. */
  datatype Volume = Volume(dir: seq<Entry>, bits: seq<bool>, free: int, data: seq<byte>)

  ghost predicate Shaped(v: Volume) {
    |v.dir| == MAX_DIR_ENTRIES && |v.bits| == NUM_DATA_BLOCKS && |v.data| == NUM_DATA_BLOCKS * BLOCK_SIZE
  }

  // ------------------------------------------------------------- directory

  predicate Matches(e: Entry, name: Name) {
    e.used && e.name == name
  }

  /** The first used slot with the given name. */
  ghost function Find(dir: seq<Entry>, name: Name): (r: Option<nat>)
    ensures r.Some? ==> r.value < |dir| && Matches(dir[r.value], name)
                        && forall j :: 0 <= j < r.value ==> !Matches(dir[j], name)
    ensures r.None? ==> forall j :: 0 <= j < |dir| ==> !Matches(dir[j], name)
  {
    FindFrom(dir, name, 0)
  }

  ghost function FindFrom(dir: seq<Entry>, name: Name, i: nat): (r: Option<nat>)
    requires i <= |dir|
    ensures r.Some? ==> i <= r.value < |dir| && Matches(dir[r.value], name)
                        && forall j :: i <= j < r.value ==> !Matches(dir[j], name)
    ensures r.None? ==> forall j :: i <= j < |dir| ==> !Matches(dir[j], name)
    decreases |dir| - i
  {
    if i == |dir| then None
    else if Matches(dir[i], name) then Some(i)
    else FindFrom(dir, name, i + 1)
  }

  /** The first unused slot. */
  ghost function FreeSlot(dir: seq<Entry>, i: nat): (r: Option<nat>)
    requires i <= |dir|
    ensures r.Some? ==> i <= r.value < |dir| && !dir[r.value].used && forall j :: i <= j < r.value ==> dir[j].used
    ensures r.None? ==> forall j :: i <= j < |dir| ==> dir[j].used
    decreases |dir| - i
  {
    if i == |dir| then None else if !dir[i].used then Some(i) else FreeSlot(dir, i + 1)
  }

  /** The first clear bit. */
  ghost function ClearBit(bits: seq<bool>, i: nat): (r: Option<nat>)
    requires i <= |bits|
    ensures r.Some? ==> i <= r.value < |bits| && !bits[r.value] && forall j :: i <= j < r.value ==> bits[j]
    ensures r.None? ==> forall j :: i <= j < |bits| ==> bits[j]
    decreases |bits| - i
  {
    if i == |bits| then None else if !bits[i] then Some(i) else ClearBit(bits, i + 1)
  }

  // ------------------------------------------------------------ operations

  /** The part of a name that fits a directory entry. */
  ghost function Stored(name: Name): (r: Name)
    ensures |name| <= 15 ==> r == name
    ensures |name| > 15 ==> |r| == 15 && forall i :: 0 <= i < 15 ==> r[i] == name[i]
  {
    if |name| < MAX_FILENAME_LEN then name else name[..MAX_FILENAME_LEN - 1]
  }

  ghost function Create(v: Volume, name: Name): (Volume, int) {
    var slot := FreeSlot(v.dir, 0);
    if Find(v.dir, name).Some? || slot.None? then (v, -1)
    else
      var b := ClearBit(v.bits, 0);
      if b.None? then (v, -1)
      else (v.(dir := v.dir[slot.value := Entry(Stored(name), 0, FIRST_DATA_BLOCK + b.value, true)],
               bits := v.bits[b.value := true], free := v.free - 1), 0)
  }

  ghost function Delete(v: Volume, name: Name): (Volume, int)
    requires Valid(v)
  {
    match Find(v.dir, name)
    case None => (v, -1)
    case Some(i) =>
      (v.(dir := v.dir[i := v.dir[i].(used := false)],
          bits := v.bits[v.dir[i].first - FIRST_DATA_BLOCK := false], free := v.free + 1), 0)
  }

  /** The data area after copying the first `k` blocks of `buf`; blocks past the end of the disk are skipped. */
  ghost function OverlayBlocks(data: seq<byte>, first: nat, buf: seq<byte>, k: nat): (r: seq<byte>)
    requires |data| == NUM_DATA_BLOCKS * BLOCK_SIZE && FIRST_DATA_BLOCK <= first < TOTAL_BLOCKS
    requires k * BLOCK_SIZE <= |buf|
    ensures |r| == |data|
  {
    var at := (first - FIRST_DATA_BLOCK) * BLOCK_SIZE;
    var len := (if first + k <= TOTAL_BLOCKS then k else TOTAL_BLOCKS - first) * BLOCK_SIZE;
    data[..at] + buf[..len] + data[at + len..]
  }

  ghost function PutBlock(data: seq<byte>, b: nat, bytes: seq<byte>): (r: seq<byte>)
    requires |data| == NUM_DATA_BLOCKS * BLOCK_SIZE && FIRST_DATA_BLOCK <= b < TOTAL_BLOCKS && |bytes| == BLOCK_SIZE
    ensures |r| == |data|
  {
    data[..(b - FIRST_DATA_BLOCK) * BLOCK_SIZE] + bytes + data[(b - FIRST_DATA_BLOCK + 1) * BLOCK_SIZE..]
  }

  /** Copying one block more. */
  lemma OverlayNext(data: seq<byte>, first: nat, buf: seq<byte>, k: nat)
    requires |data| == NUM_DATA_BLOCKS * BLOCK_SIZE && FIRST_DATA_BLOCK <= first < TOTAL_BLOCKS
    requires (k + 1) * BLOCK_SIZE <= |buf|
    ensures var so := OverlayBlocks(data, first, buf, k);
            OverlayBlocks(data, first, buf, k + 1) ==
            if first + k < TOTAL_BLOCKS then PutBlock(so, first + k, buf[k * BLOCK_SIZE..(k + 1) * BLOCK_SIZE]) else so
  {
    if first + k < TOTAL_BLOCKS {
      var at, len := (first - FIRST_DATA_BLOCK) * BLOCK_SIZE, k * BLOCK_SIZE;
      var so := OverlayBlocks(data, first, buf, k);
      assert so[..at + len] == data[..at] + buf[..len];
      assert so[at + len + BLOCK_SIZE..] == data[at + len + BLOCK_SIZE..];
      assert buf[..len + BLOCK_SIZE] == buf[..len] + buf[len..len + BLOCK_SIZE];
    }
  }

  /** A write of `n` bytes copies the blocks it starts. */
  ghost function Overlay(data: seq<byte>, first: nat, buf: seq<byte>, n: nat): (r: seq<byte>)
    requires |data| == NUM_DATA_BLOCKS * BLOCK_SIZE && FIRST_DATA_BLOCK <= first < TOTAL_BLOCKS
    requires (n / BLOCK_SIZE + 1) * BLOCK_SIZE <= |buf|
    ensures |r| == |data|
  {
    OverlayBlocks(data, first, buf, n / BLOCK_SIZE + 1)
  }

  lemma OverlayOneBlock(data: seq<byte>, first: nat, buf: seq<byte>, n: nat)
    requires |data| == NUM_DATA_BLOCKS * BLOCK_SIZE && FIRST_DATA_BLOCK <= first < TOTAL_BLOCKS
    requires n < BLOCK_SIZE <= |buf|
    ensures Overlay(data, first, buf, n) == OverlayBlocks(data, first, buf, 1)
  {}

  /** A 32-bit size returned as a C `int`. */
  function AsInt(n: nat): (r: int)
    ensures n < WORD_LIMIT ==> -0x8000_0000 <= r < 0x8000_0000 && (r == n || r == n - 0x1_0000_0000)
  {
    if n < 0x8000_0000 then n else n - 0x1_0000_0000
  }

  /** Slot `i` after `n` bytes of `buf` were written to its block and the ones after it. */
  ghost function WriteAt(v: Volume, i: nat, buf: seq<byte>, n: nat): Volume
    requires Shaped(v) && i < |v.dir| && FIRST_DATA_BLOCK <= v.dir[i].first < TOTAL_BLOCKS
    requires (n / BLOCK_SIZE + 1) * BLOCK_SIZE <= |buf|
  {
    v.(dir := v.dir[i := v.dir[i].(size := n)], data := Overlay(v.data, v.dir[i].first, buf, n))
  }

  ghost function Write(v: Volume, name: Name, buf: seq<byte>, n: nat): (Volume, int)
    requires Valid(v) && (n / BLOCK_SIZE + 1) * BLOCK_SIZE <= |buf|
  {
    var r := Find(v.dir, name);
    if r.None? then (v, -1 as int)
    else
      assert UsedSlot(v.dir, r.value);
      (WriteAt(v, r.value, buf, n), AsInt(n))
  }

  // ------------------------------------------------------------- invariant

  ghost predicate UsedSlot(dir: seq<Entry>, i: int) {
    0 <= i < |dir| && dir[i].used
  }

  ghost function UsedSlots(dir: seq<Entry>): set<int> {
    set i | 0 <= i < |dir| && dir[i].used
  }

  ghost function SetBits(bits: seq<bool>): set<int> {
    set b | 0 <= b < |bits| && bits[b]
  }

  /** Every used entry owns a block near the bottom of the data area, marked in the bitmap. */
  ghost predicate EntriesOwnBlocks(dir: seq<Entry>, bits: seq<bool>) {
    forall i :: UsedSlot(dir, i) ==>
      FIRST_DATA_BLOCK <= dir[i].first < FIRST_DATA_BLOCK + MAX_DIR_ENTRIES
      && dir[i].first - FIRST_DATA_BLOCK < |bits| && bits[dir[i].first - FIRST_DATA_BLOCK]
  }

  ghost predicate BlocksDistinct(dir: seq<Entry>) {
    forall i, j :: UsedSlot(dir, i) && UsedSlot(dir, j) && i != j ==> dir[i].first != dir[j].first
  }

  ghost predicate Owned(dir: seq<Entry>, b: nat) {
    exists i :: UsedSlot(dir, i) && dir[i].first == FIRST_DATA_BLOCK + b
  }

  ghost predicate BitsOwned(dir: seq<Entry>, bits: seq<bool>) {
    forall b {:trigger Owned(dir, b)} :: 0 <= b < |bits| && bits[b] ==> Owned(dir, b)
  }

  ghost predicate Counted(dir: seq<Entry>, bits: seq<bool>, free: int) {
    free == NUM_DATA_BLOCKS - |UsedSlots(dir)| && |SetBits(bits)| == |UsedSlots(dir)|
  }

  /** Bitmap, directory and counter agree, and blocks are handed out from the bottom. */
  ghost predicate Valid(v: Volume) {
    Shaped(v) && EntriesOwnBlocks(v.dir, v.bits) && BlocksDistinct(v.dir) && BitsOwned(v.dir, v.bits)
    && Counted(v.dir, v.bits, v.free)
  }

  ghost function Range(n: nat): (r: set<int>)
    ensures |r| == n && forall i :: i in r <==> 0 <= i < n
  {
    if n == 0 then {} else Range(n - 1) + {n - 1}
  }

  lemma SubsetSize(a: set<int>, b: set<int>)
    requires a <= b
    ensures |a| <= |b|
  {
    assert b == a + (b - a);
  }

  lemma SlotsUpdate(dir: seq<Entry>, i: nat, e: Entry)
    requires i < |dir|
    ensures UsedSlots(dir[i := e]) == if e.used then UsedSlots(dir) + {i} else UsedSlots(dir) - {i}
    ensures forall j :: j != i ==> (UsedSlot(dir[i := e], j) <==> UsedSlot(dir, j))
  {}

  lemma BitsUpdate(bits: seq<bool>, b: nat, x: bool)
    requires b < |bits|
    ensures SetBits(bits[b := x]) == if x then SetBits(bits) + {b} else SetBits(bits) - {b}
  {}

  /** There are never more used entries than slots; all slots are used exactly when the count says so. */
  lemma SlotCount(dir: seq<Entry>)
    requires |dir| == MAX_DIR_ENTRIES
    ensures |UsedSlots(dir)| <= MAX_DIR_ENTRIES
    ensures |UsedSlots(dir)| == MAX_DIR_ENTRIES <==> FreeSlot(dir, 0).None?
  {
    var all := Range(MAX_DIR_ENTRIES);
    SubsetSize(UsedSlots(dir), all);
    var r := FreeSlot(dir, 0);
    if r.Some? {
      SubsetSize(UsedSlots(dir), all - {r.value});
    } else {
      assert UsedSlots(dir) == all;
    }
  }

  /** With a slot to spare, one of the first 64 blocks is free: the lowest clear bit is below 64. */
  lemma Pigeonhole(bits: seq<bool>)
    requires |bits| == NUM_DATA_BLOCKS && |SetBits(bits)| < MAX_DIR_ENTRIES
    ensures ClearBit(bits, 0).Some? && ClearBit(bits, 0).value < MAX_DIR_ENTRIES
  {
    var r := ClearBit(bits, 0);
    if r.None? || r.value >= MAX_DIR_ENTRIES {
      assert Range(MAX_DIR_ENTRIES) <= SetBits(bits);
      SubsetSize(Range(MAX_DIR_ENTRIES), SetBits(bits));
    }
  }

  lemma TakeKeepsOwners(dir: seq<Entry>, bits: seq<bool>, i: nat, b: nat, e: Entry)
    requires BitsOwned(dir, bits) && i < |dir| && !dir[i].used && b < |bits|
    requires e.used && e.first == FIRST_DATA_BLOCK + b
    ensures BitsOwned(dir[i := e], bits[b := true])
  {
    var d := dir[i := e];
    forall c | 0 <= c < |bits| && bits[b := true][c] ensures Owned(d, c) {
      if c == b { assert UsedSlot(d, i); }
      else {
        assert Owned(dir, c);
        var j :| UsedSlot(dir, j) && dir[j].first == FIRST_DATA_BLOCK + c;
        assert UsedSlot(d, j);
      }
    }
  }

  lemma TakeKeepsEntries(dir: seq<Entry>, bits: seq<bool>, i: nat, b: nat, e: Entry)
    requires EntriesOwnBlocks(dir, bits) && BlocksDistinct(dir) && i < |dir| && !dir[i].used
    requires b < |bits| && b < MAX_DIR_ENTRIES && !bits[b] && e.used && e.first == FIRST_DATA_BLOCK + b
    ensures EntriesOwnBlocks(dir[i := e], bits[b := true]) && BlocksDistinct(dir[i := e])
  {
    SlotsUpdate(dir, i, e);
  }

  lemma DropKeepsOwners(dir: seq<Entry>, bits: seq<bool>, i: nat, b: nat, e: Entry)
    requires BitsOwned(dir, bits) && BlocksDistinct(dir) && UsedSlot(dir, i) && b < |bits|
    requires !e.used && dir[i].first == FIRST_DATA_BLOCK + b
    ensures BitsOwned(dir[i := e], bits[b := false])
  {
    var d := dir[i := e];
    forall c | 0 <= c < |bits| && bits[b := false][c] ensures Owned(d, c) {
      assert bits[c] && c != b && Owned(dir, c);
      var j :| UsedSlot(dir, j) && dir[j].first == FIRST_DATA_BLOCK + c;
      assert UsedSlot(d, j);
    }
  }

  lemma DropKeepsEntries(dir: seq<Entry>, bits: seq<bool>, i: nat, b: nat, e: Entry)
    requires EntriesOwnBlocks(dir, bits) && BlocksDistinct(dir) && UsedSlot(dir, i)
    requires b < |bits| && !e.used && dir[i].first == FIRST_DATA_BLOCK + b
    ensures EntriesOwnBlocks(dir[i := e], bits[b := false]) && BlocksDistinct(dir[i := e])
  {
    SlotsUpdate(dir, i, e);
    assert forall j :: j != i && UsedSlot(dir, j) ==> dir[j].first != dir[i].first;
  }

  /** `fs_create_file` fails exactly when the name exists or all 64 slots are taken; the disk never runs out. */
  lemma CreateKeeps(v: Volume, name: Name)
    requires Valid(v)
    ensures Valid(Create(v, name).0)
    ensures Create(v, name).1 == if Find(v.dir, name).Some? || |UsedSlots(v.dir)| == MAX_DIR_ENTRIES then -1 else 0
    ensures Create(v, name).1 == 0 ==>
              var w := Create(v, name).0; |UsedSlots(w.dir)| == |UsedSlots(v.dir)| + 1 && ClearBit(v.bits, 0).Some?
  {
    SlotCount(v.dir);
    var slot := FreeSlot(v.dir, 0);
    if slot.Some? && Find(v.dir, name).None? {
      Pigeonhole(v.bits);
      var i, b := slot.value, ClearBit(v.bits, 0).value;
      var e := Entry(Stored(name), 0, FIRST_DATA_BLOCK + b, true);
      assert Create(v, name) == (Taken(v, i, b, e), 0);
      hide Create, FreeSlot, ClearBit, Find, Stored, Valid, Taken, UsedSlots, SetBits;
      TakeKeeps(v, i, b, e);
    }
  }

  /**
    A file is created in the first free slot and gets the lowest free block, its name
    cut to 15 bytes; everything else on the volume stays.
   */
  lemma CreateWhich(v: Volume, name: Name) returns (i: nat, b: nat)
    requires Create(v, name).1 == 0
    ensures i < |v.dir| && !v.dir[i].used && forall j :: 0 <= j < i ==> v.dir[j].used
    ensures b < |v.bits| && !v.bits[b] && forall j :: 0 <= j < b ==> v.bits[j]
    ensures Create(v, name).0
            == Volume(v.dir[i := Entry(if |name| <= 15 then name else name[..15], 0, 3 + b, true)],
                      v.bits[b := true], v.free - 1, v.data)
  {
    i, b := FreeSlot(v.dir, 0).value, ClearBit(v.bits, 0).value;
  }

  /** A file is deleted in the first slot with its name, and gives its block back; everything else stays. */
  lemma DeleteWhich(v: Volume, name: Name) returns (i: nat)
    requires Valid(v) && Delete(v, name).1 == 0
    ensures i < |v.dir| && Matches(v.dir[i], name) && forall j :: 0 <= j < i ==> !Matches(v.dir[j], name)
    ensures 3 <= v.dir[i].first < 67
    ensures Delete(v, name).0
            == Volume(v.dir[i := v.dir[i].(used := false)], v.bits[v.dir[i].first - 3 := false], v.free + 1, v.data)
  {
    i := Find(v.dir, name).value;
    FoundInRange(v, name);
  }

  ghost function Taken(v: Volume, i: nat, b: nat, e: Entry): Volume
    requires i < |v.dir| && b < |v.bits|
  {
    Volume(v.dir[i := e], v.bits[b := true], v.free - 1, v.data)
  }

  lemma TakeKeeps(v: Volume, i: nat, b: nat, e: Entry)
    requires Valid(v) && i < |v.dir| && !v.dir[i].used && b < MAX_DIR_ENTRIES && !v.bits[b]
    requires e.used && e.first == FIRST_DATA_BLOCK + b
    ensures Valid(Taken(v, i, b, e)) && |UsedSlots(Taken(v, i, b, e).dir)| == |UsedSlots(v.dir)| + 1
  {
    hide EntriesOwnBlocks, BlocksDistinct, UsedSlots, UsedSlot, SetBits;
    NotMember(v.dir, v.bits, i, b);
    assert i !in UsedSlots(v.dir) by { UsedMeans(v.dir, i); }
    TakeKeepsOwners(v.dir, v.bits, i, b, e);
    TakeKeepsEntries(v.dir, v.bits, i, b, e);
    SlotsUpdate(v.dir, i, e);
    BitsUpdate(v.bits, b, true);
  }

  lemma UsedMeans(dir: seq<Entry>, i: nat)
    requires i < |dir|
    ensures UsedSlot(dir, i) <==> dir[i].used
  {}

  lemma NotMember(dir: seq<Entry>, bits: seq<bool>, i: nat, b: nat)
    ensures i in UsedSlots(dir) <==> UsedSlot(dir, i)
    ensures b in SetBits(bits) <==> b < |bits| && bits[b]
  {}

  lemma DeleteKeeps(v: Volume, name: Name)
    requires Valid(v)
    ensures Valid(Delete(v, name).0)
    ensures Delete(v, name).1 == if Find(v.dir, name).Some? then 0 else -1
    ensures Delete(v, name).1 == 0 ==> |UsedSlots(Delete(v, name).0.dir)| == |UsedSlots(v.dir)| - 1
  {
    var r := Find(v.dir, name);
    if r.Some? {
      var i, b := r.value, v.dir[r.value].first - FIRST_DATA_BLOCK;
      assert UsedSlot(v.dir, i);
      var e := v.dir[i].(used := false);
      assert v.bits[b];
      hide Find, EntriesOwnBlocks, BlocksDistinct, UsedSlots, SetBits;
      DropKeepsOwners(v.dir, v.bits, i, b, e);
      DropKeepsEntries(v.dir, v.bits, i, b, e);
      SlotsUpdate(v.dir, i, e);
      BitsUpdate(v.bits, b, false);
      NotMember(v.dir, v.bits, i, b);
    }
  }

  lemma ResizeKeepsOwners(dir: seq<Entry>, bits: seq<bool>, i: nat, n: nat)
    requires UsedSlot(dir, i) && BitsOwned(dir, bits)
    ensures BitsOwned(dir[i := dir[i].(size := n)], bits)
  {
    var d := dir[i := dir[i].(size := n)];
    forall b | 0 <= b < |bits| && bits[b] ensures Owned(d, b) {
      assert Owned(dir, b);
      var j :| UsedSlot(dir, j) && dir[j].first == FIRST_DATA_BLOCK + b;
      assert UsedSlot(d, j);
    }
  }

  lemma ResizeKeepsEntries(dir: seq<Entry>, bits: seq<bool>, i: nat, n: nat)
    requires UsedSlot(dir, i) && EntriesOwnBlocks(dir, bits) && BlocksDistinct(dir)
    ensures var d := dir[i := dir[i].(size := n)];
            EntriesOwnBlocks(d, bits) && BlocksDistinct(d) && UsedSlots(d) == UsedSlots(dir)
  {
    var d := dir[i := dir[i].(size := n)];
    SlotsUpdate(dir, i, d[i]);
    assert UsedSlots(d) == UsedSlots(dir);
  }

  lemma WriteKeeps(v: Volume, name: Name, buf: seq<byte>, n: nat)
    requires Valid(v) && (n / BLOCK_SIZE + 1) * BLOCK_SIZE <= |buf|
    ensures Valid(Write(v, name, buf, n).0)
    ensures Write(v, name, buf, n).0.bits == v.bits && Write(v, name, buf, n).0.free == v.free
  {
    var r := Find(v.dir, name);
    if r.Some? {
      assert UsedSlot(v.dir, r.value);
      var w := Write(v, name, buf, n).0;
      assert w.dir == v.dir[r.value := v.dir[r.value].(size := n)] && w.bits == v.bits && w.free == v.free
             && |w.data| == |v.data|;
      hide Write, Overlay, Find, EntriesOwnBlocks, BlocksDistinct, UsedSlots, SetBits;
      ResizeKeepsOwners(v.dir, v.bits, r.value, n);
      ResizeKeepsEntries(v.dir, v.bits, r.value, n);
    }
  }

  // ---------------------------------------------------- accounting over runs

  datatype FsOp =
    | OpCreate(name: Name)
    | OpDelete(name: Name)
    | OpWrite(name: Name, buf: seq<byte>, n: nat)
    | OpRead(name: Name)

  /** Any names, any sizes: a write only needs a buffer as long as the blocks it copies. */
  ghost predicate Legal(op: FsOp) {
    op.OpWrite? ==> (op.n / BLOCK_SIZE + 1) * BLOCK_SIZE <= |op.buf|
  }

  /** One call: the new volume and the return code. */
  ghost function VolumeStep(v: Volume, op: FsOp): (Volume, int)
    requires Valid(v) && Legal(op)
  {
    match op
    case OpCreate(name) => Create(v, name)
    case OpDelete(name) => Delete(v, name)
    case OpWrite(name, buf, n) => Write(v, name, buf, n)
    case OpRead(name) => var r := Find(v.dir, name); (v, if r.None? then -1 else AsInt(v.dir[r.value].size))
  }

  lemma VolumeStepKeeps(v: Volume, op: FsOp)
    requires Valid(v) && Legal(op)
    ensures Valid(VolumeStep(v, op).0)
  {
    match op
    case OpCreate(name) => CreateKeeps(v, name);
    case OpDelete(name) => DeleteKeeps(v, name);
    case OpWrite(name, buf, n) => WriteKeeps(v, name, buf, n);
    case OpRead(_) =>
  }

  ghost function VolumeRun(v: Volume, ops: seq<FsOp>): Volume
    requires Valid(v) && forall op :: op in ops ==> Legal(op)
    decreases |ops|
  {
    if ops == [] then v
    else
      hide Valid, VolumeStep;
      VolumeStepKeeps(v, ops[0]);
      VolumeRun(VolumeStep(v, ops[0]).0, ops[1..])
  }

  /**
    Over every run, with names and sizes of any length: set bits are exactly the
    blocks of used entries, each owned once and below block 67, and the counter
    is the number of clear bits.
   */
  lemma {:induction false} RunAccounts(v: Volume, ops: seq<FsOp>)
    requires Valid(v) && forall op :: op in ops ==> Legal(op)
    ensures var w := VolumeRun(v, ops);
            && Valid(w) && |UsedSlots(w.dir)| <= 64
            && w.free == 1021 - |SetBits(w.bits)| == 1021 - |UsedSlots(w.dir)|
    decreases |ops|
  {
    if ops == [] {
      SlotCount(v.dir);
    } else {
      hide Valid, VolumeStep, UsedSlots, SetBits;
      VolumeStepKeeps(v, ops[0]);
      RunAccounts(VolumeStep(v, ops[0]).0, ops[1..]);
    }
  }

  // ------------------------------------- the map from names to byte strings

  ghost predicate NamesDistinct(dir: seq<Entry>) {
    forall i, j :: UsedSlot(dir, i) && UsedSlot(dir, j) && i != j ==> dir[i].name != dir[j].name
  }

  ghost predicate OneBlockEach(dir: seq<Entry>) {
    forall i :: UsedSlot(dir, i) ==> dir[i].size < BLOCK_SIZE
  }

  /** A volume on which every file has its own name and fits its block. */
  ghost predicate Tidy(v: Volume) {
    Valid(v) && NamesDistinct(v.dir) && OneBlockEach(v.dir)
  }

  lemma FoundInRange(v: Volume, name: Name)
    requires Valid(v) && Find(v.dir, name).Some?
    ensures var i := Find(v.dir, name).value;
            i < |v.dir| && UsedSlot(v.dir, i) && FIRST_DATA_BLOCK <= v.dir[i].first < FIRST_DATA_BLOCK + MAX_DIR_ENTRIES
  {
    assert UsedSlot(v.dir, Find(v.dir, name).value);
  }

  lemma TidyValid(v: Volume)
    requires Tidy(v)
    ensures Valid(v)
  {}

  ghost function NameSet(dir: seq<Entry>): set<Name> {
    set i | 0 <= i < |dir| && dir[i].used :: dir[i].name
  }

  /** The first `n` bytes stored from block `first` on. */
  ghost function Stretch(data: seq<byte>, first: nat, n: nat): (r: seq<byte>)
    requires FIRST_DATA_BLOCK <= first && (first - FIRST_DATA_BLOCK) * BLOCK_SIZE + n <= |data|
    ensures |r| == n
  {
    data[(first - FIRST_DATA_BLOCK) * BLOCK_SIZE..(first - FIRST_DATA_BLOCK) * BLOCK_SIZE + n]
  }

  ghost function Content(v: Volume, i: int): seq<byte>
    requires Tidy(v) && UsedSlot(v.dir, i)
  {
    Stretch(v.data, v.dir[i].first, v.dir[i].size)
  }

  type FileMap = map<Name, seq<byte>>

  ghost function Files(v: Volume): FileMap
    requires Tidy(v)
  {
    map n | n in NameSet(v.dir) :: FileNamed(v, n)
  }

  ghost function FileNamed(v: Volume, n: Name): seq<byte>
    requires Tidy(v) && n in NameSet(v.dir)
  {
    FindNamed(v.dir, n);
    Content(v, Find(v.dir, n).value)
  }

  lemma FindNamed(dir: seq<Entry>, n: Name)
    ensures n in NameSet(dir) <==> Find(dir, n).Some?
    ensures Find(dir, n).Some? ==> UsedSlot(dir, Find(dir, n).value) && dir[Find(dir, n).value].name == n
  {
    if n in NameSet(dir) {
      var i :| 0 <= i < |dir| && dir[i].used && dir[i].name == n;
      assert Matches(dir[i], n);
    }
  }

  lemma FindIs(dir: seq<Entry>, n: Name, i: nat)
    requires NamesDistinct(dir) && UsedSlot(dir, i) && dir[i].name == n
    ensures Find(dir, n) == Some(i)
  {
    assert Matches(dir[i], n);
    FindNamed(dir, n);
    assert UsedSlot(dir, Find(dir, n).value);
  }

  /** With distinct names there are as many files as used slots. */
  lemma {:induction false} NameCount(dir: seq<Entry>)
    requires NamesDistinct(dir)
    ensures |NameSet(dir)| == |UsedSlots(dir)|
  {
    if dir != [] {
      var k := |dir| - 1;
      var d, e := dir[..k], dir[k];
      assert forall i :: UsedSlot(d, i) ==> UsedSlot(dir, i) && d[i] == dir[i];
      NameCount(d);
      if e.used { LastNameNew(dir); }
      LastSlot(dir);
      LastName(dir);
      hide UsedSlots, NameSet, NamesDistinct;
    }
  }

  lemma LastSlot(dir: seq<Entry>)
    requires dir != []
    ensures var k := |dir| - 1;
            k !in UsedSlots(dir[..k])
            && UsedSlots(dir) == if dir[k].used then UsedSlots(dir[..k]) + {k} else UsedSlots(dir[..k])
  {}

  lemma LastNameNew(dir: seq<Entry>)
    requires NamesDistinct(dir) && dir != [] && dir[|dir| - 1].used
    ensures dir[|dir| - 1].name !in NameSet(dir[..|dir| - 1])
  {
    var k := |dir| - 1;
    assert UsedSlot(dir, k);
    forall i | 0 <= i < k && dir[..k][i].used ensures dir[..k][i].name != dir[k].name { assert UsedSlot(dir, i); }
  }

  lemma LastName(dir: seq<Entry>)
    requires dir != []
    ensures var k := |dir| - 1;
            NameSet(dir) == if dir[k].used then NameSet(dir[..k]) + {dir[k].name} else NameSet(dir[..k])
  {
    var k := |dir| - 1;
    forall n | n in NameSet(dir) ensures n in NameSet(dir[..k]) || (dir[k].used && n == dir[k].name) {
      var i :| 0 <= i < |dir| && dir[i].used && dir[i].name == n;
      if i < k { assert dir[..k][i] == dir[i]; }
    }
    forall n | n in NameSet(dir[..k]) ensures n in NameSet(dir) {
      var i :| 0 <= i < k && dir[..k][i].used && dir[..k][i].name == n;
      assert dir[i] == dir[..k][i];
    }
  }

  /** What a caller sees: the return code, and for a read the bytes delivered. */
  datatype Answer = Answer(code: int, bytes: seq<byte>)

  /** Names of at most 15 characters, writes below one block from a whole-block buffer. */
  ghost predicate Fits(op: FsOp) {
    |op.name| < MAX_FILENAME_LEN
    && (op.OpWrite? ==> op.n < BLOCK_SIZE <= |op.buf|)
  }

  ghost function FsStep(v: Volume, op: FsOp): (Volume, Answer)
    requires Tidy(v) && Fits(op)
  {
    var (w, code) := VolumeStep(v, op);
    var r := Find(v.dir, op.name);
    FindNamed(v.dir, op.name);
    (w, Answer(code, if op.OpRead? && r.Some? then Content(v, r.value) else []))
  }

  ghost function MapStep(m: FileMap, op: FsOp): (FileMap, Answer)
    requires Fits(op)
  {
    match op
    case OpCreate(name) =>
      if name in m || |m| == MAX_DIR_ENTRIES then (m, Answer(-1, [])) else (m[name := []], Answer(0, []))
    case OpDelete(name) => if name in m then (m - {name}, Answer(0, [])) else (m, Answer(-1, []))
    case OpWrite(name, buf, n) => if name in m then (m[name := buf[..n]], Answer(n, [])) else (m, Answer(-1, []))
    case OpRead(name) => (m, if name in m then Answer(|m[name]|, m[name]) else Answer(-1, []))
  }

  // ------------------------------------------------ data under other writes

  lemma OverlayInside(data: seq<byte>, first: nat, buf: seq<byte>, n: nat)
    requires |data| == NUM_DATA_BLOCKS * BLOCK_SIZE && FIRST_DATA_BLOCK <= first
    requires first + n / BLOCK_SIZE < TOTAL_BLOCKS && (n / BLOCK_SIZE + 1) * BLOCK_SIZE <= |buf|
    ensures Stretch(Overlay(data, first, buf, n), first, n) == buf[..n]
  {
    var at, len := (first - FIRST_DATA_BLOCK) * BLOCK_SIZE, (n / BLOCK_SIZE + 1) * BLOCK_SIZE;
    var r := Overlay(data, first, buf, n);
    assert r[at..at + len] == buf[..len];
    assert r[at..at + n] == r[at..at + len][..n];
  }

  /** A write of any size fills every block of `first .. first + n / BLOCK_SIZE` that is on the disk. */
  lemma OverlayCovers(data: seq<byte>, first: nat, buf: seq<byte>, n: nat, c: nat, m: nat)
    requires |data| == NUM_DATA_BLOCKS * BLOCK_SIZE && FIRST_DATA_BLOCK <= first < TOTAL_BLOCKS
    requires (n / BLOCK_SIZE + 1) * BLOCK_SIZE <= |buf|
    requires first <= c <= first + n / BLOCK_SIZE && c < TOTAL_BLOCKS && m <= BLOCK_SIZE
    ensures Stretch(Overlay(data, first, buf, n), c, m) == buf[(c - first) * BLOCK_SIZE..(c - first) * BLOCK_SIZE + m]
  {
    var r := Overlay(data, first, buf, n);
    var from, at := (c - FIRST_DATA_BLOCK) * BLOCK_SIZE, (c - first) * BLOCK_SIZE;
    forall x | from <= x < from + m ensures r[x] == buf[at + x - from] {}
  }

  /** A write of any size leaves every block outside `first .. first + n / BLOCK_SIZE` as it was. */
  lemma OverlayOutside(data: seq<byte>, first: nat, buf: seq<byte>, n: nat, c: nat, m: nat)
    requires |data| == NUM_DATA_BLOCKS * BLOCK_SIZE && FIRST_DATA_BLOCK <= first < TOTAL_BLOCKS
    requires (n / BLOCK_SIZE + 1) * BLOCK_SIZE <= |buf|
    requires FIRST_DATA_BLOCK <= c < TOTAL_BLOCKS && m <= BLOCK_SIZE
    requires c < first || c > first + n / BLOCK_SIZE
    ensures Stretch(Overlay(data, first, buf, n), c, m) == Stretch(data, c, m)
  {
    var at := (first - FIRST_DATA_BLOCK) * BLOCK_SIZE;
    var r := Overlay(data, first, buf, n);
    var from := (c - FIRST_DATA_BLOCK) * BLOCK_SIZE;
    forall k | from <= k < from + m ensures r[k] == data[k] {}
  }

  /** After a write of any size that ends on the disk, the file is found again with exactly the bytes written. */
  lemma ReadBack(v: Volume, name: Name, buf: seq<byte>, n: nat)
    requires Valid(v) && (n / BLOCK_SIZE + 1) * BLOCK_SIZE <= |buf| && Find(v.dir, name).Some?
    requires v.dir[Find(v.dir, name).value].first + n / BLOCK_SIZE < TOTAL_BLOCKS
    ensures var i := Find(v.dir, name).value; var w := Write(v, name, buf, n).0;
            Find(w.dir, name) == Some(i) && UsedSlot(v.dir, i) && w.dir[i] == v.dir[i].(size := n)
            && Stretch(w.data, w.dir[i].first, n) == buf[..n]
  {
    hide Overlay, BitsOwned, Counted;
    var i := Find(v.dir, name).value;
    assert UsedSlot(v.dir, i);
    var w := Write(v, name, buf, n).0;
    OverlayInside(v.data, v.dir[i].first, buf, n);
    assert forall j :: 0 <= j < |w.dir| ==> (Matches(w.dir[j], name) <==> Matches(v.dir[j], name));
    assert Matches(w.dir[i], name);
  }

  /** The bytes a write of `n` bytes to a file in block `first` copies over: offsets into the data area. */
  predicate Overwrites(first: nat, n: nat, x: int)
    requires FIRST_DATA_BLOCK <= first
  {
    var at := (first - FIRST_DATA_BLOCK) * BLOCK_SIZE;
    at <= x < at + (n / BLOCK_SIZE + 1) * BLOCK_SIZE
  }

  /** Every byte of the data area after a write. */
  lemma OverlayAt(data: seq<byte>, first: nat, buf: seq<byte>, n: nat, x: nat)
    requires |data| == NUM_DATA_BLOCKS * BLOCK_SIZE && FIRST_DATA_BLOCK <= first < TOTAL_BLOCKS && x < |data|
    requires (n / BLOCK_SIZE + 1) * BLOCK_SIZE <= |buf|
    ensures Overlay(data, first, buf, n)[x] ==
            if Overwrites(first, n, x) then buf[x - (first - FIRST_DATA_BLOCK) * BLOCK_SIZE] else data[x]
  {}

  /** The written bytes that fall on `m` bytes stored from block `c` on are the very bytes stored there. */
  ghost predicate BringsSame(data: seq<byte>, first: nat, buf: seq<byte>, n: nat, c: nat, m: nat)
    requires FIRST_DATA_BLOCK <= first && FIRST_DATA_BLOCK <= c && (c - FIRST_DATA_BLOCK) * BLOCK_SIZE + m <= |data|
    requires (n / BLOCK_SIZE + 1) * BLOCK_SIZE <= |buf|
  {
    var at, from := (first - FIRST_DATA_BLOCK) * BLOCK_SIZE, (c - FIRST_DATA_BLOCK) * BLOCK_SIZE;
    forall x :: from <= x < from + m && Overwrites(first, n, x) ==> buf[x - at] == data[x]
  }

  lemma StretchKept(data: seq<byte>, first: nat, buf: seq<byte>, n: nat, c: nat, m: nat)
    requires |data| == NUM_DATA_BLOCKS * BLOCK_SIZE && FIRST_DATA_BLOCK <= first < TOTAL_BLOCKS
    requires (n / BLOCK_SIZE + 1) * BLOCK_SIZE <= |buf|
    requires FIRST_DATA_BLOCK <= c && (c - FIRST_DATA_BLOCK) * BLOCK_SIZE + m <= |data|
    ensures Stretch(Overlay(data, first, buf, n), c, m) == Stretch(data, c, m) <==>
            BringsSame(data, first, buf, n, c, m)
  {
    var from, r := (c - FIRST_DATA_BLOCK) * BLOCK_SIZE, Overlay(data, first, buf, n);
    forall x: nat | x < |data|
      ensures r[x] == if Overwrites(first, n, x) then buf[x - (first - FIRST_DATA_BLOCK) * BLOCK_SIZE] else data[x]
    {
      OverlayAt(data, first, buf, n, x);
    }
    hide Overlay, Overwrites;
    if Stretch(r, c, m) == Stretch(data, c, m) {
      forall x | from <= x < from + m ensures r[x] == data[x] {
        assert r[x] == Stretch(r, c, m)[x - from] && data[x] == Stretch(data, c, m)[x - from];
      }
    } else {
      var k :| 0 <= k < m && Stretch(r, c, m)[k] != Stretch(data, c, m)[k];
      assert r[from + k] != data[from + k];
    }
  }

  /**
    A write of any size keeps another file of any size if and only if every byte
    it copies over one of that file's bytes is the byte stored there.
   */
  lemma OtherFileKept(v: Volume, name: Name, buf: seq<byte>, n: nat, j: nat)
    requires Valid(v) && (n / BLOCK_SIZE + 1) * BLOCK_SIZE <= |buf| && Find(v.dir, name).Some?
    requires UsedSlot(v.dir, j) && j != Find(v.dir, name).value
    requires (v.dir[j].first - FIRST_DATA_BLOCK) * BLOCK_SIZE + v.dir[j].size <= |v.data|
    ensures var w := Write(v, name, buf, n).0;
            var first, c, m := v.dir[Find(v.dir, name).value].first, v.dir[j].first, v.dir[j].size;
            && FIRST_DATA_BLOCK <= first && FIRST_DATA_BLOCK <= c && w.dir[j] == v.dir[j] && |w.data| == |v.data|
            && (Stretch(w.data, c, m) == Stretch(v.data, c, m) <==> BringsSame(v.data, first, buf, n, c, m))
  {
    FoundInRange(v, name);
    assert FIRST_DATA_BLOCK <= v.dir[j].first < FIRST_DATA_BLOCK + MAX_DIR_ENTRIES;
    hide Overlay, Stretch, Find, EntriesOwnBlocks, BlocksDistinct, BitsOwned, Counted, BringsSame;
    StretchKept(v.data, v.dir[Find(v.dir, name).value].first, buf, n, v.dir[j].first, v.dir[j].size);
  }

  // ------------------------------------------------------------ refinement

  lemma CreateFiles(v: Volume, name: Name)
    requires Tidy(v) && |name| < MAX_FILENAME_LEN && Create(v, name).1 == 0
    ensures Tidy(Create(v, name).0) && Files(Create(v, name).0) == Files(v)[name := []]
  {
    CreateKeeps(v, name);
    FindNamed(v.dir, name);
    CreateTakes(v, name);
    hide Create, Tidy, Files, Valid, FreeSlot, Find, NameSet, UsedSlots;
    FilesTaken(v, Create(v, name).0, FreeSlot(v.dir, 0).value);
  }

  lemma CreateTakes(v: Volume, name: Name)
    requires |name| < MAX_FILENAME_LEN && Create(v, name).1 == 0
    ensures var w := Create(v, name).0;
            && Find(v.dir, name).None? && FreeSlot(v.dir, 0).Some?
            && var i := FreeSlot(v.dir, 0).value;
               w.dir == v.dir[i := w.dir[i]] && w.dir[i].used && w.dir[i].name == name && w.dir[i].size == 0
               && w.data == v.data && !v.dir[i].used
  {}

  /** An empty file in a free slot adds its name to the map. */
  lemma FilesTaken(v: Volume, w: Volume, i: nat)
    requires Tidy(v) && Valid(w) && i < |w.dir| == |v.dir| && w.dir == v.dir[i := w.dir[i]] && w.data == v.data
    requires !v.dir[i].used && w.dir[i].used && w.dir[i].size == 0 && w.dir[i].name !in NameSet(v.dir)
    ensures Tidy(w) && Files(w) == Files(v)[w.dir[i].name := []]
  {
    hide Valid;
    var name := w.dir[i].name;
    SlotTaken(v.dir, i, w.dir[i]);
    FindIs(w.dir, name, i);
    assert FileNamed(w, name) == [];
    forall n | n in NameSet(v.dir) ensures n != name && FileNamed(w, n) == FileNamed(v, n) {
      hide NameSet;
      FindNamed(v.dir, n);
      var j := Find(v.dir, n).value;
      assert j != i && UsedSlot(w.dir, j);
      FindIs(w.dir, n, j);
    }
  }

  lemma SlotTaken(dir: seq<Entry>, i: nat, e: Entry)
    requires NamesDistinct(dir) && i < |dir| && !dir[i].used
    requires e.used && e.size < BLOCK_SIZE && e.name !in NameSet(dir)
    ensures NamesDistinct(dir[i := e]) && (OneBlockEach(dir) ==> OneBlockEach(dir[i := e]))
    ensures NameSet(dir[i := e]) == NameSet(dir) + {e.name}
  {
    var d := dir[i := e];
    assert forall j :: j != i ==> (UsedSlot(d, j) <==> UsedSlot(dir, j));
    assert forall j :: UsedSlot(dir, j) ==> dir[j].name in NameSet(dir);
    forall n | n in NameSet(d) ensures n in NameSet(dir) + {e.name} {
      var j :| 0 <= j < |d| && d[j].used && d[j].name == n;
      if j != i { assert dir[j].name in NameSet(dir); }
    }
    forall n | n in NameSet(dir) + {e.name} ensures n in NameSet(d) {
      if n == e.name { assert d[i].used && d[i].name == n; }
      else {
        var j :| 0 <= j < |dir| && dir[j].used && dir[j].name == n;
        assert d[j].used && d[j].name == n;
      }
    }
  }

  lemma SlotDropped(dir: seq<Entry>, i: nat, e: Entry)
    requires NamesDistinct(dir) && OneBlockEach(dir) && UsedSlot(dir, i) && !e.used
    ensures NamesDistinct(dir[i := e]) && OneBlockEach(dir[i := e])
            && NameSet(dir[i := e]) == NameSet(dir) - {dir[i].name}
  {
    var d := dir[i := e];
    assert forall j :: UsedSlot(d, j) <==> UsedSlot(dir, j) && j != i;
    forall n | n in NameSet(d) ensures n in NameSet(dir) - {dir[i].name} {
      var j :| 0 <= j < |d| && d[j].used && d[j].name == n;
      assert UsedSlot(dir, j) && j != i && dir[j].name in NameSet(dir);
    }
    forall n | n in NameSet(dir) - {dir[i].name} ensures n in NameSet(d) {
      var j :| 0 <= j < |dir| && dir[j].used && dir[j].name == n;
      assert d[j].used && d[j].name == n;
    }
  }

  /**
    Names are cut to 15 characters on creation but compared in full: creation
    keeps names distinct exactly when the cut name was not there yet.
   */
  lemma CreateDistinct(v: Volume, name: Name)
    requires Valid(v) && NamesDistinct(v.dir) && Create(v, name).1 == 0
    ensures NamesDistinct(Create(v, name).0.dir) <==> Find(v.dir, Stored(name)).None?
  {
    var i := FreeSlot(v.dir, 0).value;
    var d := Create(v, name).0.dir;
    hide Valid;
    FindNamed(v.dir, Stored(name));
    if Find(v.dir, Stored(name)).None? {
      SlotTaken(v.dir, i, d[i]);
    } else {
      assert UsedSlot(d, Find(v.dir, Stored(name)).value) && UsedSlot(d, i);
    }
  }

  lemma DeleteFiles(v: Volume, name: Name)
    requires Tidy(v) && Delete(v, name).1 == 0
    ensures Tidy(Delete(v, name).0) && Files(Delete(v, name).0) == Files(v) - {name}
  {
    DeleteKeeps(v, name);
    var w := Delete(v, name).0;
    var i := Find(v.dir, name).value;
    var e := w.dir[i];
    FindNamed(v.dir, name);
    assert w.dir == v.dir[i := e] && !e.used && w.data == v.data;
    hide Delete, Valid;
    SlotDropped(v.dir, i, e);
    assert Tidy(w);
    forall n | n in NameSet(w.dir) ensures FileNamed(w, n) == FileNamed(v, n) {
      FindNamed(w.dir, n);
      var j := Find(w.dir, n).value;
      assert j != i && UsedSlot(v.dir, j);
      FindIs(v.dir, n, j);
    }
  }

  lemma SlotResized(dir: seq<Entry>, i: nat, n: nat)
    requires NamesDistinct(dir) && OneBlockEach(dir) && UsedSlot(dir, i) && n < BLOCK_SIZE
    ensures var d := dir[i := dir[i].(size := n)]; NamesDistinct(d) && OneBlockEach(d) && NameSet(d) == NameSet(dir)
  {
    var d := dir[i := dir[i].(size := n)];
    assert forall j :: UsedSlot(d, j) <==> UsedSlot(dir, j);
    forall x | x in NameSet(d) ensures x in NameSet(dir) {
      var j :| 0 <= j < |d| && d[j].used && d[j].name == x;
      assert dir[j].used && dir[j].name == x;
    }
    forall x | x in NameSet(dir) ensures x in NameSet(d) {
      var j :| 0 <= j < |dir| && dir[j].used && dir[j].name == x;
      assert d[j].used && d[j].name == x;
    }
  }

  lemma WriteTidy(v: Volume, name: Name, buf: seq<byte>, n: nat)
    requires Tidy(v) && n < BLOCK_SIZE <= |buf| && Find(v.dir, name).Some?
    ensures var i := Find(v.dir, name).value; var w := Write(v, name, buf, n).0;
            && UsedSlot(v.dir, i) && v.dir[i].name == name && Tidy(w) && w.dir == v.dir[i := v.dir[i].(size := n)]
            && w.data == Overlay(v.data, v.dir[i].first, buf, n) && NameSet(w.dir) == NameSet(v.dir)
  {
    WriteKeeps(v, name, buf, n);
    FindNamed(v.dir, name);
    hide Overlay, BitsOwned, Counted, SetBits;
    SlotResized(v.dir, Find(v.dir, name).value, n);
  }

  lemma WriteOther(v: Volume, name: Name, buf: seq<byte>, n: nat, x: Name)
    requires Tidy(v) && n < BLOCK_SIZE <= |buf| && Find(v.dir, name).Some? && x in NameSet(v.dir) && x != name
    requires Tidy(Write(v, name, buf, n).0) && x in NameSet(Write(v, name, buf, n).0.dir)
    ensures FileNamed(Write(v, name, buf, n).0, x) == FileNamed(v, x)
  {
    WriteTidy(v, name, buf, n);
    var i, w := Find(v.dir, name).value, Write(v, name, buf, n).0;
    hide Write, Overlay, BitsOwned, Counted, SetBits, NameSet;
    FindNamed(v.dir, x);
    var j := Find(v.dir, x).value;
    assert j != i && UsedSlot(w.dir, j);
    FindIs(w.dir, x, j);
    OverlayOutside(v.data, v.dir[i].first, buf, n, v.dir[j].first, v.dir[j].size);
  }

  /** Two contents that differ in one name only. */
  lemma FilesDiffer(v: Volume, w: Volume, name: Name)
    requires Tidy(v) && Tidy(w) && NameSet(w.dir) == NameSet(v.dir) + {name}
    requires forall x :: x in NameSet(v.dir) && x != name ==> FileNamed(w, x) == FileNamed(v, x)
    ensures Files(w) == Files(v)[name := FileNamed(w, name)]
  {
    hide FileNamed, Tidy, NameSet;
  }

  lemma WriteFiles(v: Volume, name: Name, buf: seq<byte>, n: nat)
    requires Tidy(v) && n < BLOCK_SIZE <= |buf| && Find(v.dir, name).Some?
    ensures Tidy(Write(v, name, buf, n).0) && Files(Write(v, name, buf, n).0) == Files(v)[name := buf[..n]]
  {
    WriteTidy(v, name, buf, n);
    WriteNamed(v, name, buf, n);
    hide Write, Tidy, FileNamed, Files, NameSet, Find;
    FindNamed(v.dir, name);
    var w := Write(v, name, buf, n).0;
    assert NameSet(w.dir) == NameSet(v.dir) + {name};
    forall x | x in NameSet(v.dir) && x != name ensures FileNamed(w, x) == FileNamed(v, x) {
      WriteOther(v, name, buf, n, x);
    }
    FilesDiffer(v, w, name);
  }

  lemma WriteNamed(v: Volume, name: Name, buf: seq<byte>, n: nat)
    requires Tidy(v) && n < BLOCK_SIZE <= |buf| && Find(v.dir, name).Some?
    ensures var w := Write(v, name, buf, n).0; Tidy(w) && name in NameSet(w.dir) && FileNamed(w, name) == buf[..n]
  {
    WriteTidy(v, name, buf, n);
    var i, w := Find(v.dir, name).value, Write(v, name, buf, n).0;
    FindNamed(v.dir, name);
    FoundInRange(v, name);
    hide Write, Overlay, Valid, NameSet;
    assert UsedSlot(w.dir, i) && w.dir[i].name == name;
    FindIs(w.dir, name, i);
    OverlayInside(v.data, v.dir[i].first, buf, n);
  }

  /** One call: the answer and the new contents are the map's. */
  lemma StepRefines(v: Volume, op: FsOp)
    requires Tidy(v) && Fits(op)
    ensures Tidy(FsStep(v, op).0)
    ensures MapStep(Files(v), op) == (Files(FsStep(v, op).0), FsStep(v, op).1)
  {
    FindNamed(v.dir, op.name);
    TidyValid(v);
    assert Files(v).Keys == NameSet(v.dir);
    hide Create, Delete, Write, Tidy, Valid, Find, NameSet;
    match op
    case OpCreate(name) =>
      CreateRefines(v, name);
    case OpDelete(name) =>
      DeleteKeeps(v, name);
      if Find(v.dir, name).Some? { DeleteFiles(v, name); } else { Refused(v, op); }
    case OpWrite(name, buf, n) =>
      if Find(v.dir, name).Some? { WriteFiles(v, name, buf, n); WriteCode(v, name, buf, n); } else { Refused(v, op); }
    case OpRead(_) =>
  }

  lemma CreateRefines(v: Volume, name: Name)
    requires Tidy(v) && |name| < MAX_FILENAME_LEN
    ensures var (w, r) := Create(v, name);
            && Tidy(w)
            && (if name in Files(v) || |Files(v)| == MAX_DIR_ENTRIES then w == v && r == -1
                else Files(w) == Files(v)[name := []] && r == 0)
  {
    FindNamed(v.dir, name);
    CreateKeeps(v, name);
    NameCount(v.dir);
    assert Files(v).Keys == NameSet(v.dir);
    assert Create(v, name).1 != 0 ==> Create(v, name).0 == v;
    hide Create, Tidy, Valid, Find, NameSet, UsedSlots;
    if Create(v, name).1 == 0 { CreateFiles(v, name); }
  }

  lemma WriteCode(v: Volume, name: Name, buf: seq<byte>, n: nat)
    requires Valid(v) && n < BLOCK_SIZE <= |buf| && Find(v.dir, name).Some?
    ensures Write(v, name, buf, n).1 == n
  {}

  /** A file that is not there is neither deleted nor written. */
  lemma Refused(v: Volume, op: FsOp)
    requires Valid(v) && Legal(op) && Find(v.dir, op.name).None?
    ensures op.OpDelete? || op.OpWrite? ==> VolumeStep(v, op) == (v, -1)
  {}

  lemma StepTidy(v: Volume, op: FsOp)
    requires Tidy(v) && Fits(op)
    ensures Tidy(FsStep(v, op).0)
  {
    StepRefines(v, op);
  }

  ghost function FsRun(v: Volume, ops: seq<FsOp>): (r: (Volume, seq<Answer>))
    requires Tidy(v) && forall op :: op in ops ==> Fits(op)
    decreases |ops|
  {
    if ops == [] then (v, [])
    else
      hide Tidy, FsStep;
      StepTidy(v, ops[0]);
      var (w, a) := FsStep(v, ops[0]);
      var (x, more) := FsRun(w, ops[1..]);
      (x, [a] + more)
  }

  ghost function MapRun(m: FileMap, ops: seq<FsOp>): (FileMap, seq<Answer>)
    requires forall op :: op in ops ==> Fits(op)
    decreases |ops|
  {
    if ops == [] then (m, [])
    else
      var (w, a) := MapStep(m, ops[0]);
      var (x, more) := MapRun(w, ops[1..]);
      (x, [a] + more)
  }

  /** Every run of create, delete, write and read gives the answers of a map from names to byte strings. */
  lemma {:induction false} RunRefines(v: Volume, ops: seq<FsOp>)
    requires Tidy(v) && forall op :: op in ops ==> Fits(op)
    ensures Tidy(FsRun(v, ops).0)
    ensures MapRun(Files(v), ops) == (Files(FsRun(v, ops).0), FsRun(v, ops).1)
    decreases |ops|
  {
    hide Tidy, Files, FsStep, MapStep;
    if ops != [] {
      StepRefines(v, ops[0]);
      RunRefines(FsStep(v, ops[0]).0, ops[1..]);
    }
  }

  // --------------------------------------- the formatted volume, and two runs

  /** A freshly formatted volume holds no file: every run from it starts with the empty map. */
  lemma EmptyTidy(v: Volume)
    requires Shaped(v) && v.free == NUM_DATA_BLOCKS
    requires (forall i :: 0 <= i < |v.dir| ==> !v.dir[i].used) && forall b :: 0 <= b < |v.bits| ==> !v.bits[b]
    ensures Tidy(v) && Files(v) == map[]
  {
    assert UsedSlots(v.dir) == {} && SetBits(v.bits) == {} && NameSet(v.dir) == {};
  }

  /** A name of 16 characters or more is created, is not found afterwards, and can be created again. */
  lemma LongNameTwice(v: Volume, name: Name)
    requires Valid(v) && |name| >= MAX_FILENAME_LEN && Find(v.dir, name).None?
    requires |UsedSlots(v.dir)| + 2 <= MAX_DIR_ENTRIES
    ensures var (w, r) := Create(v, name); var (x, q) := Create(w, name);
            r == 0 && Find(w.dir, name).None? && q == 0 && Valid(x) && !NamesDistinct(x.dir)
  {
    CreateKeeps(v, name);
    var (w, r) := Create(v, name);
    LongNameLost(v, name);
    CreateKeeps(w, name);
    var (x, q) := Create(w, name);
    var i, j := FreeSlot(v.dir, 0).value, FreeSlot(w.dir, 0).value;
    assert w.dir[i] == x.dir[i] && UsedSlot(x.dir, i) && UsedSlot(x.dir, j) && i != j;
    assert x.dir[i].name == x.dir[j].name == Stored(name);
  }

  lemma LongNameLost(v: Volume, name: Name)
    requires |name| >= MAX_FILENAME_LEN && Find(v.dir, name).None?
    ensures Find(Create(v, name).0.dir, name).None?
  {
    var w := Create(v, name).0;
    assert forall j :: 0 <= j < |v.dir| ==> w.dir[j] == v.dir[j] || w.dir[j].name == Stored(name);
    FindNamed(w.dir, name);
  }

  ghost function Blank(): Volume {
    Volume(seq(MAX_DIR_ENTRIES, _ => Entry([], 0, 0, false)), seq(NUM_DATA_BLOCKS, _ => false), NUM_DATA_BLOCKS,
           seq(NUM_DATA_BLOCKS * BLOCK_SIZE, _ => 0))
  }

  function Repeated(n: nat, b: byte): (r: seq<byte>)
    ensures |r| == n
  {
    seq(n, _ => b)
  }

  const NAME_A: Name := ['a' as byte]
  const NAME_B: Name := ['b' as byte]

  lemma BlankTidy()
    ensures Tidy(Blank()) && Files(Blank()) == map[]
  {
    EmptyTidy(Blank());
  }

  lemma CreateShape(v: Volume, name: Name, k: nat)
    requires Find(v.dir, name).None? && FreeSlot(v.dir, 0) == Some(k) && ClearBit(v.bits, 0) == Some(k)
    ensures Create(v, name) == (Taken(v, k, k, Entry(Stored(name), 0, FIRST_DATA_BLOCK + k, true)), 0)
  {}

  /** Creation takes the first free slot and the first free block, here given. */
  lemma CreateAt(v: Volume, name: Name, k: nat)
    requires Tidy(v) && name !in NameSet(v.dir) && |name| < MAX_FILENAME_LEN && k < MAX_DIR_ENTRIES
    requires (forall i :: 0 <= i < k ==> v.dir[i].used && v.bits[i]) && !v.dir[k].used && !v.bits[k]
    ensures var w := Create(v, name).0;
            && Tidy(w) && Files(w) == Files(v)[name := []] && w.data == v.data
            && w.dir == v.dir[k := Entry(name, 0, FIRST_DATA_BLOCK + k, true)] && w.bits == v.bits[k := true]
  {
    FindNamed(v.dir, name);
    FirstFreeSlot(v.dir, k, 0);
    FirstClearBit(v.bits, k, 0);
    CreateShape(v, name, k);
    hide Tidy, Files, NameSet, FreeSlot, ClearBit, Find, UsedSlots, Valid, Create;
    CreateFiles(v, name);
  }

  lemma FirstFreeSlot(dir: seq<Entry>, k: nat, i: nat)
    requires i <= k < |dir| && !dir[k].used && forall j :: 0 <= j < k ==> dir[j].used
    ensures FreeSlot(dir, i) == Some(k)
    decreases k - i
  {
    if i < k { FirstFreeSlot(dir, k, i + 1); }
  }

  lemma FirstClearBit(bits: seq<bool>, k: nat, i: nat)
    requires i <= k < |bits| && !bits[k] && forall j :: 0 <= j < k ==> bits[j]
    ensures ClearBit(bits, i) == Some(k)
    decreases k - i
  {
    if i < k { FirstClearBit(bits, k, i + 1); }
  }

  /** Two files on a blank volume, with a zero byte in the second. */
  ghost function TwoFiles(): Volume {
    TwoFilesTidy();
    Write(Create(Create(Blank(), NAME_A).0, NAME_B).0, NAME_B, Repeated(BLOCK_SIZE, 0), 1).0
  }

  lemma TwoFilesTidy()
    ensures var v := Create(Create(Blank(), NAME_A).0, NAME_B).0;
            && Tidy(v) && |v.dir| == MAX_DIR_ENTRIES
            && v.dir[0] == Entry(NAME_A, 0, 3, true) && v.dir[1] == Entry(NAME_B, 0, 4, true)
            && Files(v) == map[NAME_A := [], NAME_B := []]
  {
    BlankTidy();
    CreateAt(Blank(), NAME_A, 0);
    CreateAt(Create(Blank(), NAME_A).0, NAME_B, 1);
  }

  /** A write to the file in slot `i`, here given. */
  lemma WriteSlot(v: Volume, name: Name, buf: seq<byte>, n: nat, i: nat)
    requires Tidy(v) && UsedSlot(v.dir, i) && v.dir[i].name == name && (n / BLOCK_SIZE + 1) * BLOCK_SIZE <= |buf|
    ensures Find(v.dir, name) == Some(i) && Valid(v)
    ensures FIRST_DATA_BLOCK <= v.dir[i].first < FIRST_DATA_BLOCK + MAX_DIR_ENTRIES
    ensures Write(v, name, buf, n).0 == WriteAt(v, i, buf, n)
  {
    FindIs(v.dir, name, i);
  }

  lemma OneByteWritten(u: Volume, buf: seq<byte>)
    requires Tidy(u) && UsedSlot(u.dir, 1) && u.dir[1].name == NAME_B && |buf| == BLOCK_SIZE
    ensures var v := Write(u, NAME_B, buf, 1).0;
            Tidy(v) && v.dir == u.dir[1 := u.dir[1].(size := 1)] && Files(v) == Files(u)[NAME_B := buf[..1]]
  {
    WriteSlot(u, NAME_B, buf, 1, 1);
    WriteFiles(u, NAME_B, buf, 1);
  }

  lemma TwoFilesAre()
    ensures var v := TwoFiles();
            && Tidy(v) && |v.dir| == MAX_DIR_ENTRIES
            && v.dir[0] == Entry(NAME_A, 0, 3, true) && v.dir[1] == Entry(NAME_B, 1, 4, true)
            && Files(v) == map[NAME_A := [], NAME_B := [0]]
  {
    TwoFilesTidy();
    hide Create, Files, Tidy, Valid, Write, Blank;
    var buf := Repeated(BLOCK_SIZE, 0);
    assert buf[..1] == [0];
    OneByteWritten(Create(Create(Blank(), NAME_A).0, NAME_B).0, buf);
  }

  /** A write of 4096 bytes to the first of two files changes the one byte of the second. */
  lemma LongWriteHappens()
    ensures var v := TwoFiles();
            && Tidy(v) && Files(v) == map[NAME_A := [], NAME_B := [0]]
            && var w := Write(v, NAME_A, Repeated(2 * BLOCK_SIZE, 7), BLOCK_SIZE).0;
               w.dir[1] == Entry(NAME_B, 1, 4, true) && |w.data| == |v.data| && Stretch(w.data, 4, 1) == [7]
  {
    TwoFilesAre();
    var v, buf := TwoFiles(), Repeated(2 * BLOCK_SIZE, 7);
    hide TwoFiles, Files, Tidy, Valid, Overlay, Stretch;
    WriteSlot(v, NAME_A, buf, BLOCK_SIZE, 0);
    OverlayCovers(v.data, 3, buf, BLOCK_SIZE, 4, 1);
    assert buf[BLOCK_SIZE..BLOCK_SIZE + 1] == [7];
  }

  /** The two files after 4097 bytes were written to the first: its last byte lies in the block of the second. */
  ghost function LongFile(): Volume {
    hide Valid, Tidy, TwoFiles, Write;
    TwoFilesAre();
    TidyValid(TwoFiles());
    Write(TwoFiles(), NAME_A, Repeated(2 * BLOCK_SIZE, 7), BLOCK_SIZE + 1).0
  }

  lemma LongFileIs()
    ensures var w := LongFile();
            && Valid(w) && |w.dir| == MAX_DIR_ENTRIES && Find(w.dir, NAME_B) == Some(1)
            && w.dir[0] == Entry(NAME_A, BLOCK_SIZE + 1, 3, true) && w.dir[1] == Entry(NAME_B, 1, 4, true)
            && |w.data| == NUM_DATA_BLOCKS * BLOCK_SIZE && Stretch(w.data, 3, BLOCK_SIZE + 1)[BLOCK_SIZE] == 7
  {
    TwoFilesAre();
    var v, buf := TwoFiles(), Repeated(2 * BLOCK_SIZE, 7);
    TidyValid(v);
    WriteKeeps(v, NAME_A, buf, BLOCK_SIZE + 1);
    WriteSlot(v, NAME_A, buf, BLOCK_SIZE + 1, 0);
    OverlayInside(v.data, 3, buf, BLOCK_SIZE + 1);
    var w := LongFile();
    hide TwoFiles, Files, Tidy, Valid, Overlay, Stretch, Write;
    assert buf[..BLOCK_SIZE + 1][BLOCK_SIZE] == 7;
    assert w.dir == v.dir[0 := v.dir[0].(size := BLOCK_SIZE + 1)];
    SecondFound(w.dir);
  }

  lemma SecondFound(dir: seq<Entry>)
    requires |dir| > 1 && dir[0].name == NAME_A && dir[1].used && dir[1].name == NAME_B
    ensures Find(dir, NAME_B) == Some(1)
  {
    assert Matches(dir[1], NAME_B) && !Matches(dir[0], NAME_B);
  }

  lemma ShortWriteAt(w: Volume, buf: seq<byte>)
    requires Valid(w) && Find(w.dir, NAME_B) == Some(1) && w.dir[1].first == 4 && |buf| == BLOCK_SIZE
    requires UsedSlot(w.dir, 0) && w.dir[0].first == 3 && w.dir[0].size == BLOCK_SIZE + 1
    requires |w.data| == NUM_DATA_BLOCKS * BLOCK_SIZE && Stretch(w.data, 3, BLOCK_SIZE + 1)[BLOCK_SIZE] != buf[0]
    ensures var x := Write(w, NAME_B, buf, 1).0;
            && |x.data| == |w.data| && |x.dir| == |w.dir| && x.dir[0] == w.dir[0]
            && Stretch(x.data, 3, BLOCK_SIZE + 1) != Stretch(w.data, 3, BLOCK_SIZE + 1)
  {
    OtherFileKept(w, NAME_B, buf, 1, 0);
    LastOfStretch(w.data, 3);
    hide Valid, Write, Stretch, Overlay, Find;
    assert Overwrites(4, 1, BLOCK_SIZE) && buf[BLOCK_SIZE - BLOCK_SIZE] != w.data[BLOCK_SIZE];
    assert !BringsSame(w.data, 4, buf, 1, 3, BLOCK_SIZE + 1);
  }

  /** After that even a one-byte write to the second file changes the first. */
  lemma ShortWriteHappens()
    ensures var w := LongFile();
            Valid(w) && var x := Write(w, NAME_B, Repeated(BLOCK_SIZE, 9), 1).0;
            && |x.data| == |w.data| == NUM_DATA_BLOCKS * BLOCK_SIZE && |w.dir| == |x.dir| == MAX_DIR_ENTRIES
            && w.dir[0] == Entry(NAME_A, BLOCK_SIZE + 1, 3, true) && x.dir[0] == w.dir[0]
            && Stretch(x.data, 3, BLOCK_SIZE + 1) != Stretch(w.data, 3, BLOCK_SIZE + 1)
  {
    LongFileIs();
    hide LongFile, Write, Stretch, Overlay, Find;
    ShortWriteAt(LongFile(), Repeated(BLOCK_SIZE, 9));
  }

  lemma LastOfStretch(data: seq<byte>, first: nat)
    requires |data| == NUM_DATA_BLOCKS * BLOCK_SIZE && first == FIRST_DATA_BLOCK
    ensures Stretch(data, first, BLOCK_SIZE + 1)[BLOCK_SIZE] == data[BLOCK_SIZE]
  {}
}
