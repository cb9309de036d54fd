/**
  EasyFS as `fs/easyfs.c` implements it: superblock, bitmap, directory and file
  data all live in one byte array, and every operation updates it in place.
 */
module EasyFs {
  import opened Bytes
  import opened Common
  import opened EasyFsModel

  // ------------------------------------------------- layout of the byte array

  const DISK_SIZE: nat := TOTAL_BLOCKS * BLOCK_SIZE
  const BITMAP_AT: nat := 1 * BLOCK_SIZE
  const BITMAP_SIZE: nat := 128
  const DIR_AT: nat := 2 * BLOCK_SIZE
  const ENTRY_SIZE: nat := 28
  const DIR_SIZE: nat := MAX_DIR_ENTRIES * ENTRY_SIZE
  const DATA_AT: nat := FIRST_DATA_BLOCK * BLOCK_SIZE
  const SUPER_SIZE: nat := 40

  // Offsets in the superblock and in a directory entry.
  const SB_NUM_DATA: nat := 12
  const SB_FREE: nat := 16
  const SB_FIRST: nat := 28
  const DE_SIZE: nat := 16
  const DE_FIRST: nat := 20
  const DE_USED: nat := 24

  // ------------------------------------------------------------------- bits

  /** `x & (1 << k)` is nonzero. */
  function Bit(x: nat, k: nat): bool {
    if k == 0 then x % 2 == 1 else Bit(x / 2, k - 1)
  }

  /** `x | (1 << k)` and `x & ~(1 << k)`. */
  function PutBit(x: nat, k: nat, on: bool): nat {
    if k == 0 then x - x % 2 + (if on then 1 else 0) else 2 * PutBit(x / 2, k - 1, on) + x % 2
  }

  lemma {:induction false} BitAfterPut(x: nat, k: nat, on: bool, j: nat)
    ensures Bit(PutBit(x, k, on), j) <==> if j == k then on else Bit(x, j)
    decreases k
  {
    var y := PutBit(x, k, on);
    if k == 0 {
      assert y / 2 == x / 2;
    } else {
      assert y / 2 == PutBit(x / 2, k - 1, on) && y % 2 == x % 2;
      if j > 0 { BitAfterPut(x / 2, k - 1, on, j - 1); }
    }
  }

  function TwoTo(w: nat): nat {
    if w == 0 then 1 else 2 * TwoTo(w - 1)
  }

  /** Setting or clearing one of the low `w` bits stays below 2^w. */
  lemma {:induction false} PutBitBound(x: nat, k: nat, on: bool, w: nat)
    requires k < w && x < TwoTo(w)
    ensures PutBit(x, k, on) < TwoTo(w)
    decreases k
  {
    var half, top := x / 2, TwoTo(w - 1);
    assert TwoTo(w) == 2 * top && half < top;
    if k > 0 { PutBitBound(half, k - 1, on, w - 1); }
  }

  function WithBit(x: byte, k: nat, on: bool): byte
    requires k < 8
  {
    assert TwoTo(8) == 256 by { assert TwoTo(4) == 16; }
    PutBitBound(x as nat, k, on, 8);
    PutBit(x as nat, k, on) as byte
  }

  // ------------------------------------------------- what the bytes denote

  ghost function EntryOf(e: seq<byte>): Entry
    requires |e| == ENTRY_SIZE
  {
    Entry(CString(e[..MAX_FILENAME_LEN]), WordOf(e[16], e[17], e[18], e[19]), WordOf(e[20], e[21], e[22], e[23]),
        e[24] != 0)
  }

  ghost function DirOf(d: seq<byte>): (r: seq<Entry>)
    requires |d| == DIR_SIZE
    ensures |r| == MAX_DIR_ENTRIES
  {
    seq(MAX_DIR_ENTRIES, i requires 0 <= i < MAX_DIR_ENTRIES => EntryOf(d[ENTRY_SIZE * i..ENTRY_SIZE * i + ENTRY_SIZE]))
  }

  ghost function BitsOf(b: seq<byte>): (r: seq<bool>)
    requires |b| == BITMAP_SIZE
    ensures |r| == NUM_DATA_BLOCKS
  {
    seq(NUM_DATA_BLOCKS, i requires 0 <= i < NUM_DATA_BLOCKS => Bit(b[i / 8] as nat, i % 8))
  }

  ghost predicate NamesTerminated(dir: seq<Entry>) {
    forall i :: 0 <= i < |dir| ==> |dir[i].name| < MAX_FILENAME_LEN
  }

  lemma BitsAfter(b: seq<byte>, block: nat, on: bool)
    requires |b| == BITMAP_SIZE && block < NUM_DATA_BLOCKS
    ensures BitsOf(b[block / 8 := WithBit(b[block / 8], block % 8, on)]) == BitsOf(b)[block := on]
  {
    var c := b[block / 8 := WithBit(b[block / 8], block % 8, on)];
    forall i | 0 <= i < NUM_DATA_BLOCKS ensures BitsOf(c)[i] == BitsOf(b)[block := on][i] {
      if i / 8 == block / 8 { BitAfterPut(b[block / 8] as nat, block % 8, on, i % 8); }
    }
  }

  /** Replacing the bytes of one entry replaces that entry. */
  lemma DirAfter(d: seq<byte>, c: seq<byte>, k: nat)
    requires |d| == |c| == DIR_SIZE && k < MAX_DIR_ENTRIES
    requires forall x :: 0 <= x < DIR_SIZE && !(ENTRY_SIZE * k <= x < ENTRY_SIZE * k + ENTRY_SIZE) ==> c[x] == d[x]
    ensures DirOf(c) == DirOf(d)[k := EntryOf(c[ENTRY_SIZE * k..ENTRY_SIZE * k + ENTRY_SIZE])]
  {
    hide EntryOf;
    forall i | 0 <= i < MAX_DIR_ENTRIES && i != k ensures DirOf(c)[i] == DirOf(d)[i] {
      var lo, hi := ENTRY_SIZE * i, ENTRY_SIZE * i + ENTRY_SIZE;
      assert c[lo..hi] == d[lo..hi];
    }
  }

  lemma ZeroDir(d: seq<byte>)
    requires |d| == DIR_SIZE && forall x :: 0 <= x < DIR_SIZE ==> d[x] == 0
    ensures forall i :: 0 <= i < MAX_DIR_ENTRIES ==> !DirOf(d)[i].used && DirOf(d)[i].name == []
  {
    hide DirOf;
    forall i | 0 <= i < MAX_DIR_ENTRIES ensures !DirOf(d)[i].used && DirOf(d)[i].name == [] { ZeroSlot(d, i); }
  }

  lemma ZeroSlot(d: seq<byte>, i: nat)
    requires |d| == DIR_SIZE && (forall x :: 0 <= x < DIR_SIZE ==> d[x] == 0) && i < MAX_DIR_ENTRIES
    ensures !DirOf(d)[i].used && DirOf(d)[i].name == []
  {
    hide EntryOf;
    var e := d[ENTRY_SIZE * i..ENTRY_SIZE * i + ENTRY_SIZE];
    assert e[0] == 0 && e[DE_USED] == 0;
    ZeroEntry(e);
    assert DirOf(d)[i] == EntryOf(e);
  }

  lemma ZeroEntry(e: seq<byte>)
    requires |e| == ENTRY_SIZE && e[0] == 0 && e[DE_USED] == 0
    ensures !EntryOf(e).used && EntryOf(e).name == []
  {}

  lemma ZeroBits(b: seq<byte>)
    requires |b| == BITMAP_SIZE && forall x :: 0 <= x < BITMAP_SIZE ==> b[x] == 0
    ensures forall i :: 0 <= i < NUM_DATA_BLOCKS ==> !BitsOf(b)[i]
  {
    forall i | 0 <= i < NUM_DATA_BLOCKS ensures !BitsOf(b)[i] { ZeroBit(i % 8); }
  }

  lemma {:induction false} ZeroBit(k: nat)
    ensures !Bit(0, k)
  {
    if k > 0 { ZeroBit(k - 1); }
  }

  function WordIn(s: seq<byte>, a: nat): nat
    requires a + 4 <= |s|
  {
    WordOf(s[a], s[a + 1], s[a + 2], s[a + 3])
  }

  ghost predicate FormattedBytes(s: seq<byte>) {
    |s| == DISK_SIZE && WordIn(s, SB_NUM_DATA) == NUM_DATA_BLOCKS && WordIn(s, SB_FIRST) == FIRST_DATA_BLOCK
    && NamesTerminated(DirOf(s[DIR_AT..DIR_AT + DIR_SIZE]))
  }

  ghost function ViewOf(s: seq<byte>): (v: Volume)
    requires |s| == DISK_SIZE
    ensures Shaped(v)
  {
    Volume(DirOf(s[DIR_AT..DIR_AT + DIR_SIZE]), BitsOf(s[BITMAP_AT..BITMAP_AT + BITMAP_SIZE]), WordIn(s, SB_FREE),
        s[DATA_AT..])
  }

  /** Equal tails have equal parts. */
  lemma Halves(s: seq<byte>, t: seq<byte>)
    requires |s| == |t| == DISK_SIZE
    ensures s[DIR_AT..] == t[DIR_AT..] ==> s[DIR_AT..DATA_AT] == t[DIR_AT..DATA_AT] && s[DATA_AT..] == t[DATA_AT..]
    ensures s[BITMAP_AT..] == t[BITMAP_AT..] ==>
              s[BITMAP_AT..DIR_AT] == t[BITMAP_AT..DIR_AT] && s[DIR_AT..] == t[DIR_AT..]
  {
    assert s[DIR_AT..DATA_AT] == s[DIR_AT..][..DATA_AT - DIR_AT]
        && t[DIR_AT..DATA_AT] == t[DIR_AT..][..DATA_AT - DIR_AT];
    assert s[DATA_AT..] == s[DIR_AT..][DATA_AT - DIR_AT..] && t[DATA_AT..] == t[DIR_AT..][DATA_AT - DIR_AT..];
    assert s[BITMAP_AT..DIR_AT] == s[BITMAP_AT..][..BLOCK_SIZE] && t[BITMAP_AT..DIR_AT] == t[BITMAP_AT..][..BLOCK_SIZE];
    assert s[DIR_AT..] == s[BITMAP_AT..][BLOCK_SIZE..] && t[DIR_AT..] == t[BITMAP_AT..][BLOCK_SIZE..];
    if s[BITMAP_AT..] == t[BITMAP_AT..] { assert s[DIR_AT..] == t[DIR_AT..]; }
  }

  lemma SuperKept(s: seq<byte>, t: seq<byte>)
    requires |s| == |t| == DISK_SIZE && s[..BITMAP_AT] == t[..BITMAP_AT]
    ensures forall a :: 0 <= a <= SUPER_SIZE - 4 ==> WordIn(t, a) == WordIn(s, a)
  {
    assert forall x :: 0 <= x < BITMAP_AT ==> s[x] == s[..BITMAP_AT][x] && t[x] == t[..BITMAP_AT][x];
  }

  lemma BitsKept(s: seq<byte>, t: seq<byte>)
    requires |s| == |t| == DISK_SIZE && s[BITMAP_AT..DIR_AT] == t[BITMAP_AT..DIR_AT]
    ensures ViewOf(t).bits == ViewOf(s).bits
  {
    assert s[BITMAP_AT..BITMAP_AT + BITMAP_SIZE] == s[BITMAP_AT..DIR_AT][..BITMAP_SIZE];
    assert t[BITMAP_AT..BITMAP_AT + BITMAP_SIZE] == t[BITMAP_AT..DIR_AT][..BITMAP_SIZE];
  }

  lemma DirKept(s: seq<byte>, t: seq<byte>)
    requires |s| == |t| == DISK_SIZE && s[DIR_AT..DATA_AT] == t[DIR_AT..DATA_AT]
    ensures ViewOf(t).dir == ViewOf(s).dir && s[DIR_AT..DIR_AT + DIR_SIZE] == t[DIR_AT..DIR_AT + DIR_SIZE]
  {
    assert s[DIR_AT..DIR_AT + DIR_SIZE] == s[DIR_AT..DATA_AT][..DIR_SIZE];
    assert t[DIR_AT..DIR_AT + DIR_SIZE] == t[DIR_AT..DATA_AT][..DIR_SIZE];
  }

  /** Reading one directory slot out of the array. */
  lemma SlotBytes(s: seq<byte>, i: nat)
    requires |s| == DISK_SIZE && i < MAX_DIR_ENTRIES
    ensures var at := DIR_AT + ENTRY_SIZE * i;
            ViewOf(s).dir[i] == Entry(CString(s[at..at + MAX_FILENAME_LEN]),
                                      WordIn(s, at + DE_SIZE), WordIn(s, at + DE_FIRST),
                                      s[at + DE_USED] != 0)
  {
    var at := DIR_AT + ENTRY_SIZE * i;
    var d := s[DIR_AT..DIR_AT + DIR_SIZE];
    var e := d[ENTRY_SIZE * i..ENTRY_SIZE * i + ENTRY_SIZE];
    forall k | 0 <= k < ENTRY_SIZE ensures e[k] == s[at + k] {
      var y := ENTRY_SIZE * i + k;
      assert e[k] == d[y] && d[y] == s[DIR_AT + y];
    }
    assert e[..MAX_FILENAME_LEN] == s[at..at + MAX_FILENAME_LEN];
    assert ViewOf(s).dir[i] == EntryOf(e);
  }

  /** Changing bytes of one directory slot changes that entry and nothing else. */
  lemma SlotChanged(s: seq<byte>, t: seq<byte>, i: nat)
    requires |s| == |t| == DISK_SIZE && i < MAX_DIR_ENTRIES
    requires forall x :: 0 <= x < DISK_SIZE && (x < DIR_AT + ENTRY_SIZE * i || DIR_AT + ENTRY_SIZE * (i + 1) <= x) ==>
                           t[x] == s[x]
    ensures ViewOf(t) == ViewOf(s).(dir := ViewOf(s).dir[i := ViewOf(t).dir[i]])
    ensures s[..DIR_AT] == t[..DIR_AT] && s[DATA_AT..] == t[DATA_AT..]
    ensures WordIn(t, SB_NUM_DATA) == WordIn(s, SB_NUM_DATA) && WordIn(t, SB_FIRST) == WordIn(s, SB_FIRST)
  {
    hide DirOf, BitsOf, EntryOf;
    var d, c := s[DIR_AT..DIR_AT + DIR_SIZE], t[DIR_AT..DIR_AT + DIR_SIZE];
    DirAfter(d, c, i);
    assert s[BITMAP_AT..BITMAP_AT + BITMAP_SIZE] == t[BITMAP_AT..BITMAP_AT + BITMAP_SIZE];
  }

  lemma EmptyOverlay(data: seq<byte>, first: nat, buf: seq<byte>)
    requires |data| == NUM_DATA_BLOCKS * BLOCK_SIZE && FIRST_DATA_BLOCK <= first < TOTAL_BLOCKS
    ensures OverlayBlocks(data, first, buf, 0) == data
  {}

  function Min(a: nat, b: nat): nat {
    if a < b then a else b
  }

  /** A buffer that held `was`, after `len` bytes from `d` on were read into its front. */
  ghost function Filled(d: seq<byte>, was: seq<byte>, from: nat, len: nat): seq<byte>
    requires from + len <= |d| && len <= |was|
  {
    d[from..from + len] + was[len..]
  }

  lemma FilledIs(d: seq<byte>, was: seq<byte>, from: nat, len: nat)
    requires from + len <= |d| && len <= |was|
    ensures Filled(d, was, from, len) == d[from..from + len] + was[len..]
    ensures len == 0 ==> Filled(d, was, from, len) == was
  {}

  lemma ReadNext(d: seq<byte>, was: seq<byte>, from: nat, len: nat)
    requires from + len + BLOCK_SIZE <= |d| && len + BLOCK_SIZE <= |was|
    ensures var f := Filled(d, was, from, len);
            |f| == |was| && Filled(d, was, from, len + BLOCK_SIZE)
                            == f[..len] + d[from + len..from + len + BLOCK_SIZE] + f[len + BLOCK_SIZE..]
  {}

  lemma DataStretch(s: seq<byte>, first: nat, len: nat)
    requires |s| == DISK_SIZE && FIRST_DATA_BLOCK <= first && first * BLOCK_SIZE + len <= DISK_SIZE
    ensures s[first * BLOCK_SIZE..first * BLOCK_SIZE + len] == Stretch(ViewOf(s).data, first, len)
  {
    hide DirOf, BitsOf, WordIn;
    var at := (first - FIRST_DATA_BLOCK) * BLOCK_SIZE;
    assert first * BLOCK_SIZE == DATA_AT + at;
    Subslice(s, DATA_AT, at, len);
  }

  lemma Subslice(s: seq<byte>, from: nat, at: nat, len: nat)
    requires from + at + len <= |s|
    ensures s[from + at..from + at + len] == s[from..][at..at + len]
  {}

  /** Replacing one data block changes the data area alone. */
  lemma BlockChanged(s: seq<byte>, t: seq<byte>, b: nat, bytes: seq<byte>)
    requires |s| == DISK_SIZE && FIRST_DATA_BLOCK <= b < TOTAL_BLOCKS && |bytes| == BLOCK_SIZE
    requires t == s[..b * BLOCK_SIZE] + bytes + s[(b + 1) * BLOCK_SIZE..]
    ensures |t| == DISK_SIZE && t[..DATA_AT] == s[..DATA_AT]
    ensures t[DATA_AT..] == PutBlock(s[DATA_AT..], b, bytes)
  {}

  /** Equal bytes before the data area mean an equal view up to the data. */
  lemma MetadataKept(s: seq<byte>, t: seq<byte>)
    requires |s| == |t| == DISK_SIZE && s[..DATA_AT] == t[..DATA_AT]
    ensures ViewOf(t) == ViewOf(s).(data := t[DATA_AT..])
    ensures FormattedBytes(s) <==> FormattedBytes(t)
  {
    hide DirOf, BitsOf;
    assert forall x :: 0 <= x < DATA_AT ==> s[x] == s[..DATA_AT][x] && t[x] == t[..DATA_AT][x];
    assert s[DIR_AT..DIR_AT + DIR_SIZE] == t[DIR_AT..DIR_AT + DIR_SIZE];
    assert s[BITMAP_AT..BITMAP_AT + BITMAP_SIZE] == t[BITMAP_AT..BITMAP_AT + BITMAP_SIZE];
  }

  /** One block written to a file's first block is a write of less than a block. */
  lemma OneBlockWritten(s: seq<byte>, t: seq<byte>, b: nat, bytes: seq<byte>)
    requires FormattedBytes(s) && FIRST_DATA_BLOCK <= b < TOTAL_BLOCKS && |bytes| == BLOCK_SIZE
    requires t == s[..b * BLOCK_SIZE] + bytes + s[(b + 1) * BLOCK_SIZE..]
    ensures FormattedBytes(t) && ViewOf(t) == ViewOf(s).(data := OverlayBlocks(ViewOf(s).data, b, bytes, 1))
  {
    hide DirOf, BitsOf, WordIn, NamesTerminated;
    BlockChanged(s, t, b, bytes);
    MetadataKept(s, t);
    EmptyOverlay(s[DATA_AT..], b, bytes);
    OverlayNext(s[DATA_AT..], b, bytes, 0);
    assert bytes[0..BLOCK_SIZE] == bytes;
  }

  class FileSystem {
    const disk: array<byte>

    ghost predicate Formatted()
      reads disk
    {
      FormattedBytes(disk[..])
    }

    /** The volume stored in the array. */
    ghost function View(): (v: Volume)
      requires disk.Length == DISK_SIZE
      reads disk
    {
      ViewOf(disk[..])
    }

    /** `fs_init`. */
    constructor (disk: array<byte>)
      requires disk.Length == DISK_SIZE
      modifies disk
      ensures this.disk == disk && Formatted() && Valid(View())
      ensures Tidy(View()) && Files(View()) == map[]
    {
      this.disk := disk;
      new;
      ZeroAll();
      hide DirOf, BitsOf, EntryOf, Bit, CString, WordOf;
      WriteSuperblock();
      ZeroDir(disk[DIR_AT..DIR_AT + DIR_SIZE]);
      ZeroBits(disk[BITMAP_AT..BITMAP_AT + BITMAP_SIZE]);
      EmptyTidy(View());
    }

    method ZeroAll()
      requires disk.Length == DISK_SIZE
      modifies disk
      ensures forall x :: 0 <= x < DISK_SIZE ==> disk[x] == 0
    {
      var i := 0;
      while i < DISK_SIZE
        invariant 0 <= i <= DISK_SIZE
        invariant forall x :: 0 <= x < i ==> disk[x] == 0
      {
        disk[i] := 0;
        i := i + 1;
      }
    }

    method WriteSuperblock()
      requires disk.Length == DISK_SIZE
      modifies disk
      ensures Word(disk, SB_NUM_DATA) == NUM_DATA_BLOCKS && Word(disk, SB_FREE) == NUM_DATA_BLOCKS
      ensures Word(disk, SB_FIRST) == FIRST_DATA_BLOCK
      ensures forall x :: SUPER_SIZE <= x < DISK_SIZE ==> disk[x] == old(disk[x])
    {
      hide WordOf;
      PutWord(disk, 0, 0xDEAD_BEEF);
      PutWord(disk, 4, TOTAL_BLOCKS);
      PutWord(disk, 8, BLOCK_SIZE);
      PutWord(disk, SB_NUM_DATA, NUM_DATA_BLOCKS);
      PutWord(disk, SB_FREE, NUM_DATA_BLOCKS);
      PutWord(disk, 20, 1);
      PutWord(disk, 24, 2);
      PutWord(disk, SB_FIRST, FIRST_DATA_BLOCK);
      PutWord(disk, 32, 0);
      PutWord(disk, 36, 0);
    }

    /** `fs_block_is_free`. */
    method BlockIsFree(block: nat) returns (r: bool)
      requires Formatted()
      ensures r <==> block < NUM_DATA_BLOCKS && !View().bits[block]
    {
      if block >= Word(disk, SB_NUM_DATA) {
        return false;
      }
      r := !Bit(disk[BITMAP_AT + block / 8] as nat, block % 8);
    }

    method PutBitmapBit(block: nat, on: bool)
      requires disk.Length == DISK_SIZE && block < NUM_DATA_BLOCKS
      modifies disk
      ensures ViewOf(disk[..]).bits == old(ViewOf(disk[..])).bits[block := on]
      ensures disk[..BITMAP_AT] == old(disk[..BITMAP_AT]) && disk[DIR_AT..] == old(disk[DIR_AT..])
    {
      hide BitsOf, WithBit, DirOf, WordIn;
      ghost var s, bitmap := disk[..], disk[BITMAP_AT..BITMAP_AT + BITMAP_SIZE];
      var at := BITMAP_AT + block / 8;
      disk[at] := WithBit(disk[at], block % 8, on);
      ghost var t, after := disk[..], disk[BITMAP_AT..BITMAP_AT + BITMAP_SIZE];
      assert after == bitmap[block / 8 := WithBit(bitmap[block / 8], block % 8, on)];
      BitsAfter(bitmap, block, on);
      assert s[BITMAP_AT..BITMAP_AT + BITMAP_SIZE] == bitmap && t[BITMAP_AT..BITMAP_AT + BITMAP_SIZE] == after;
    }

    method PutFreeCount(count: nat)
      requires disk.Length == DISK_SIZE && count < WORD_LIMIT
      modifies disk
      ensures WordIn(disk[..], SB_FREE) == count
      ensures WordIn(disk[..], SB_NUM_DATA) == old(WordIn(disk[..], SB_NUM_DATA))
      ensures WordIn(disk[..], SB_FIRST) == old(WordIn(disk[..], SB_FIRST))
      ensures disk[BITMAP_AT..] == old(disk[BITMAP_AT..])
    {
      PutWord(disk, SB_FREE, count);
    }

    /** The common part of `fs_mark_block_used` and `fs_mark_block_free`: the bit and the 32-bit counter. */
    method MarkBlock(block: nat, used: bool) returns (r: bool)
      requires Formatted()
      modifies disk
      ensures Formatted() && r == (block < NUM_DATA_BLOCKS)
      ensures var v := old(View()); View() == if !r then v
                else v.(bits := v.bits[block := used],
                        free := (if used then v.free - 1 else v.free + 1) % WORD_LIMIT)
      ensures disk[DIR_AT..] == old(disk[DIR_AT..])
    {
      hide DirOf, BitsOf, NamesTerminated, WordOf;
      if block >= Word(disk, SB_NUM_DATA) {
        return false;
      }
      ghost var s := disk[..];
      PutBitmapBit(block, used);
      ghost var t := disk[..];
      Halves(s, t);
      SuperKept(s, t);
      DirKept(s, t);
      var count := Word(disk, SB_FREE);
      PutFreeCount((if used then count + WORD_LIMIT - 1 else count + 1) % WORD_LIMIT);
      ghost var u := disk[..];
      Halves(t, u);
      BitsKept(t, u);
      DirKept(t, u);
      r := true;
    }

    /** `fs_alloc_block`: the lowest free block. */
    method AllocBlock() returns (r: int)
      requires Formatted()
      modifies disk
      ensures Formatted() && disk[DIR_AT..] == old(disk[DIR_AT..])
      ensures var v := old(View());
              match ClearBit(v.bits, 0)
              case None => r == -1 && View() == v
              case Some(b) => r == FIRST_DATA_BLOCK + b
                              && View() == v.(bits := v.bits[b := true], free := (v.free - 1) % WORD_LIMIT)
    {
      hide DirOf, BitsOf, NamesTerminated, WordOf;
      var i := 0;
      while i < Word(disk, SB_NUM_DATA)
        invariant 0 <= i <= NUM_DATA_BLOCKS
        invariant disk[..] == old(disk[..])
        invariant ClearBit(View().bits, 0) == ClearBit(View().bits, i)
        decreases NUM_DATA_BLOCKS - i
      {
        var free := BlockIsFree(i);
        if free {
          var _ := MarkBlock(i, true);
          return Word(disk, SB_FIRST) + i;
        }
        i := i + 1;
      }
      r := -1;
    }

    /** The test of `fs_find_file`'s loop: slot `i` is used and its stored C string equals the name. */
    method SlotMatches(i: nat, name: Name) returns (r: bool)
      requires Formatted() && 0 !in name && i < MAX_DIR_ENTRIES
      ensures r <==> Matches(View().dir[i], name)
    {
      hide DirOf, BitsOf, WordOf, WordIn;
      SlotBytes(disk[..], i);
      var at := DIR_AT + ENTRY_SIZE * i;
      assert disk[..][at..at + MAX_FILENAME_LEN] == disk[at..at + MAX_FILENAME_LEN];
      if disk[at + DE_USED] == 0 {
        return false;
      }
      var c := StrCmp(disk, at, name, MAX_FILENAME_LEN);
      CompareZero(View().dir[i].name, name);
      r := c == 0;
    }

    /** `fs_find_file`: the slot of the entry, or -1 for NULL. */
    method FindFile(name: Name) returns (r: int)
      requires Formatted() && 0 !in name
      ensures r == match Find(View().dir, name) case None => -1 case Some(i) => i
    {
      assert disk.Length == DISK_SIZE;
      hide FormattedBytes, ViewOf, Matches;
      var i := 0;
      while i < MAX_DIR_ENTRIES
        invariant 0 <= i <= MAX_DIR_ENTRIES
        invariant Find(View().dir, name) == FindFrom(View().dir, name, i)
      {
        var found := SlotMatches(i, name);
        if found {
          return i;
        }
        i := i + 1;
      }
      r := -1;
    }

    /** The bounded name copy of `fs_create_file`. */
    method CopyName(at: nat, name: Name) returns (j: nat)
      requires disk.Length == DISK_SIZE && DIR_AT <= at && at + ENTRY_SIZE <= DATA_AT
      modifies disk
      ensures j == |Stored(name)| && j < MAX_FILENAME_LEN
      ensures disk[at..at + j] == Stored(name) && disk[at + j] == 0
      ensures forall x :: 0 <= x < DISK_SIZE && !(at <= x < at + MAX_FILENAME_LEN) ==> disk[x] == old(disk[x])
    {
      j := 0;
      while j < MAX_FILENAME_LEN - 1 && j < |name|
        invariant 0 <= j <= MAX_FILENAME_LEN - 1 && j <= |name|
        invariant disk[at..at + j] == name[..j]
        invariant forall x :: 0 <= x < DISK_SIZE && !(at <= x < at + j) ==> disk[x] == old(disk[x])
      {
        disk[at + j] := name[j];
        j := j + 1;
      }
      disk[at + j] := 0;
      assert name[..j] == Stored(name);
    }

    /** The last three assignments of `fs_create_file`. */
    method PutFields(at: nat, size: nat, block: nat, used: byte)
      requires disk.Length == DISK_SIZE && DIR_AT <= at && at + ENTRY_SIZE <= DATA_AT && size < WORD_LIMIT
              && block < WORD_LIMIT
      modifies disk
      ensures WordIn(disk[..], at + DE_SIZE) == size && WordIn(disk[..], at + DE_FIRST) == block
              && disk[at + DE_USED] == used
      ensures forall x :: 0 <= x < DISK_SIZE && !(at + DE_SIZE <= x < at + ENTRY_SIZE) ==> disk[x] == old(disk[x])
    {
      PutWord(disk, at + DE_SIZE, size);
      PutWord(disk, at + DE_FIRST, block);
      disk[at + DE_USED] := used;
    }

    /** Fills in slot `i`, as the end of `fs_create_file` does. */
    method FillSlot(i: nat, name: Name, block: nat)
      requires Formatted() && i < MAX_DIR_ENTRIES && 0 !in name && block < WORD_LIMIT
      modifies disk
      ensures Formatted() && View() == old(View()).(dir := old(View()).dir[i := Entry(Stored(name), 0, block, true)])
    {
      hide DirOf, BitsOf, EntryOf, WordIn, CString;
      var at := DIR_AT + ENTRY_SIZE * i;
      ghost var s := disk[..];
      var j := CopyName(at, name);
      ghost var n := disk[at..at + j];
      PutFields(at, 0, block, 1);
      ghost var t := disk[..];
      assert t[at..at + j] == n;
      SlotChanged(s, t, i);
      SlotBytes(t, i);
      ghost var e := t[at..at + MAX_FILENAME_LEN];
      assert e[..j] == n && e[j] == 0;
      CStringIs(e, j);
    }

    /** `fs_create_file`. */
    method CreateFile(name: Name) returns (r: int)
      requires Formatted() && Valid(View()) && 0 !in name
      modifies disk
      ensures Formatted() && Valid(View())
      ensures (View(), r) == Create(old(View()), name)
    {
      hide DirOf, BitsOf, EntryOf, WordIn, CString, Valid, Stored;
      ghost var v := View();
      CreateKeeps(v, name);
      CountInRange(v);
      var found := FindFile(name);
      if found >= 0 {
        return -1;
      }
      var i := 0;
      while i < MAX_DIR_ENTRIES
        invariant 0 <= i <= MAX_DIR_ENTRIES && disk[..] == old(disk[..])
        invariant FreeSlot(v.dir, 0) == FreeSlot(v.dir, i)
      {
        SlotBytes(disk[..], i);
        if disk[DIR_AT + ENTRY_SIZE * i + DE_USED] == 0 {
          var block := AllocBlock();
          if block < 0 {
            return -1;
          }
          FillSlot(i, name, block);
          return 0;
        }
        i := i + 1;
      }
      r := -1;
    }

    lemma WordSame(a: nat)
      requires a + 4 <= disk.Length
      ensures Word(disk, a) == WordIn(disk[..], a)
    {}

    lemma CountInRange(v: Volume)
      requires Valid(v)
      ensures MAX_DIR_ENTRIES < v.free <= NUM_DATA_BLOCKS
    {
      SlotCount(v.dir);
    }

    /** `fs_delete_file`. */
    method DeleteFile(name: Name) returns (r: int)
      requires Formatted() && Valid(View()) && 0 !in name
      modifies disk
      ensures Formatted() && Valid(View())
      ensures (View(), r) == Delete(old(View()), name)
    {
      hide DirOf, BitsOf, EntryOf, WordIn, CString, Counted, BlocksDistinct;
      ghost var v := View();
      DeleteKeeps(v, name);
      CountInRange(v);
      var i := FindFile(name);
      if i < 0 {
        return -1;
      }
      assert UsedSlot(v.dir, i);
      assert FIRST_DATA_BLOCK <= v.dir[i].first < TOTAL_BLOCKS;
      hide Valid;
      var first := EntryFirst(i);
      assert Word(disk, SB_FIRST) == WordIn(disk[..], SB_FIRST) == FIRST_DATA_BLOCK by { WordSame(SB_FIRST); }
      var _ := MarkBlock((first + WORD_LIMIT - Word(disk, SB_FIRST)) % WORD_LIMIT, false);
      assert View().dir == v.dir by { Halves(old(disk[..]), disk[..]); DirKept(old(disk[..]), disk[..]); }
      ClearUsed(i);
      r := 0;
    }

    /** `entry->first_data_block` and `entry->file_size`. */
    method EntryFirst(i: nat) returns (r: nat)
      requires Formatted() && i < MAX_DIR_ENTRIES
      ensures r == View().dir[i].first < WORD_LIMIT
    {
      SlotBytes(disk[..], i);
      r := Word(disk, DIR_AT + ENTRY_SIZE * i + DE_FIRST);
    }

    method EntrySize(i: nat) returns (r: nat)
      requires Formatted() && i < MAX_DIR_ENTRIES
      ensures r == View().dir[i].size < WORD_LIMIT
    {
      SlotBytes(disk[..], i);
      r := Word(disk, DIR_AT + ENTRY_SIZE * i + DE_SIZE);
    }

    /** `entry->is_used = 0`. */
    method ClearUsed(i: nat)
      requires Formatted() && i < MAX_DIR_ENTRIES
      modifies disk
      ensures Formatted()
      ensures View() == old(View()).(dir := old(View()).dir[i := old(View()).dir[i].(used := false)])
    {
      hide DirOf, BitsOf, EntryOf, CString;
      ghost var s, at := disk[..], DIR_AT + ENTRY_SIZE * i;
      disk[DIR_AT + ENTRY_SIZE * i + DE_USED] := 0;
      ghost var t := disk[..];
      SlotBytes(s, i);
      SlotChanged(s, t, i);
      SlotBytes(t, i);
      assert s[at..at + MAX_FILENAME_LEN] == t[at..at + MAX_FILENAME_LEN];
    }

    /** `entry->file_size = n`. */
    method SetSize(i: nat, n: nat)
      requires Formatted() && i < MAX_DIR_ENTRIES && n < WORD_LIMIT
      modifies disk
      ensures Formatted()
      ensures View() == old(View()).(dir := old(View()).dir[i := old(View()).dir[i].(size := n)])
      ensures disk[..DIR_AT] == old(disk[..DIR_AT])
    {
      hide DirOf, BitsOf, EntryOf, CString, WordOf;
      ghost var s, at := disk[..], DIR_AT + ENTRY_SIZE * i;
      PutWord(disk, DIR_AT + ENTRY_SIZE * i + DE_SIZE, n);
      ghost var t := disk[..];
      SlotBytes(s, i);
      SlotChanged(s, t, i);
      SlotBytes(t, i);
      assert s[at..at + MAX_FILENAME_LEN] == t[at..at + MAX_FILENAME_LEN];
      assert s[..DIR_AT] == disk[..DIR_AT];
    }

    /** `fs_write_block`: nothing happens when the block number is out of range or the buffer is NULL. */
    method WriteBlock(block: nat, buf: array?<byte>, from: nat)
      requires disk.Length == DISK_SIZE && (buf != null ==> buf != disk && from + BLOCK_SIZE <= buf.Length)
      modifies disk
      ensures block >= TOTAL_BLOCKS || buf == null ==> disk[..] == old(disk[..])
      ensures block < TOTAL_BLOCKS && buf != null ==>
                disk[..] == old(disk[..block * BLOCK_SIZE]) + buf[from..from + BLOCK_SIZE]
                            + old(disk[(block + 1) * BLOCK_SIZE..])
    {
      if block >= TOTAL_BLOCKS || buf == null {
        return;
      }
      var at, i := block * BLOCK_SIZE, 0;
      while i < BLOCK_SIZE
        invariant 0 <= i <= BLOCK_SIZE
        invariant disk[at..at + i] == buf[from..from + i]
        invariant forall x :: 0 <= x < DISK_SIZE && !(at <= x < at + i) ==> disk[x] == old(disk[x])
      {
        disk[at + i] := buf[from + i];
        i := i + 1;
      }
    }

    /** `fs_read_block`, which trusts its block number. */
    method ReadBlock(block: nat, buf: array<byte>, to: nat)
      requires disk.Length == DISK_SIZE && block < TOTAL_BLOCKS && buf != disk && to + BLOCK_SIZE <= buf.Length
      modifies buf
      ensures buf[..] == old(buf[..to]) + disk[block * BLOCK_SIZE..block * BLOCK_SIZE + BLOCK_SIZE]
              + old(buf[to + BLOCK_SIZE..])
    {
      var at, i := block * BLOCK_SIZE, 0;
      while i < BLOCK_SIZE
        invariant 0 <= i <= BLOCK_SIZE
        invariant buf[to..to + i] == disk[at..at + i]
        invariant forall x :: 0 <= x < buf.Length && !(to <= x < to + i) ==> buf[x] == old(buf[x])
      {
        buf[to + i] := disk[at + i];
        i := i + 1;
      }
    }

    /** The loop of `fs_write_file`. */
    method WriteBlocks(first: nat, buf: array<byte>, blocks: nat)
      requires Formatted() && FIRST_DATA_BLOCK <= first < TOTAL_BLOCKS && buf != disk
              && blocks * BLOCK_SIZE <= buf.Length
      modifies disk
      ensures disk[..DATA_AT] == old(disk[..DATA_AT]) && Formatted()
      ensures View() == old(View()).(data := OverlayBlocks(old(View()).data, first, buf[..], blocks))
    {
      hide DirOf, BitsOf, WordIn, OverlayBlocks, PutBlock, NamesTerminated;
      ghost var s, src := disk[..], buf[..];
      ghost var data := s[DATA_AT..];
      ghost var done := OverlayBlocks(data, first, src, 0);
      EmptyOverlay(data, first, src);
      var i := 0;
      while i < blocks
        invariant 0 <= i <= blocks && buf[..] == src
        invariant disk[..DATA_AT] == s[..DATA_AT]
        invariant done == OverlayBlocks(data, first, src, i)
        invariant disk[DATA_AT..] == done
      {
        ghost var t, bytes := disk[..], src[i * BLOCK_SIZE..(i + 1) * BLOCK_SIZE];
        OverlayNext(data, first, src, i);
        WriteBlock(first + i, buf, i * BLOCK_SIZE);
        if first + i < TOTAL_BLOCKS {
          assert buf[i * BLOCK_SIZE..i * BLOCK_SIZE + BLOCK_SIZE] == bytes;
          BlockChanged(t, disk[..], first + i, bytes);
          done := PutBlock(done, first + i, bytes);
        }
        i := i + 1;
      }
      MetadataKept(s, disk[..]);
    }

    /** `fs_write_file`, for any size: superblock and bitmap keep every byte. */
    method WriteFile(name: Name, buf: array<byte>, size: nat) returns (r: int)
      requires Formatted() && Valid(View()) && 0 !in name
      requires size < WORD_LIMIT && buf != disk && (size / BLOCK_SIZE + 1) * BLOCK_SIZE <= buf.Length
      modifies disk
      ensures Formatted() && Valid(View())
      ensures (View(), r) == Write(old(View()), name, buf[..], size)
      ensures disk[..DIR_AT] == old(disk[..DIR_AT])
    {
      hide DirOf, BitsOf, WordIn, OverlayBlocks, BlocksDistinct, BitsOwned, Counted, NamesTerminated;
      ghost var v := View();
      WriteKeeps(v, name, buf[..], size);
      var i := FindFile(name);
      if i < 0 {
        return -1;
      }
      assert UsedSlot(v.dir, i);
      var first := EntryFirst(i);
      WriteBlocks(first, buf, size / BLOCK_SIZE + 1);
      assert disk[..DIR_AT] == disk[..DATA_AT][..DIR_AT];
      SetSize(i, size);
      r := AsInt(size);
    }

    /** One round of the loop of `fs_read_file`. */
    method ReadRound(first: nat, buf: array<byte>, k: nat, ghost was: seq<byte>)
      requires disk.Length == DISK_SIZE && buf != disk && first + k < TOTAL_BLOCKS
      requires (k + 1) * BLOCK_SIZE <= |was| && buf[..] == Filled(disk[..], was, first * BLOCK_SIZE, k * BLOCK_SIZE)
      modifies buf
      ensures buf[..] == Filled(disk[..], was, first * BLOCK_SIZE, (k + 1) * BLOCK_SIZE)
    {
      hide Filled;
      ghost var len, at, f := k * BLOCK_SIZE, first * BLOCK_SIZE, buf[..];
      ReadNext(disk[..], was, at, len);
      ReadBlock(first + k, buf, k * BLOCK_SIZE);
      assert disk[at + len..at + len + BLOCK_SIZE] == disk[..][at + len..at + len + BLOCK_SIZE];
    }

    /** The loop of `fs_read_file`. */
    method ReadBlocks(first: nat, buf: array<byte>, blocks: nat)
      requires disk.Length == DISK_SIZE && buf != disk && blocks * BLOCK_SIZE <= buf.Length
              && first + blocks <= TOTAL_BLOCKS
      modifies buf
      ensures buf[..] == Filled(disk[..], old(buf[..]), first * BLOCK_SIZE, blocks * BLOCK_SIZE)
    {
      hide Filled;
      ghost var was := buf[..];
      FilledIs(disk[..], was, first * BLOCK_SIZE, 0);
      var k := 0;
      while k < blocks
        invariant 0 <= k <= blocks && disk[..] == old(disk[..])
        invariant buf[..] == Filled(disk[..], was, first * BLOCK_SIZE, k * BLOCK_SIZE)
      {
        ReadRound(first, buf, k, was);
        k := k + 1;
      }
    }

    /** `fs_read_file`: whole blocks, as many as both the request and the file start. */
    method ReadFile(name: Name, buf: array<byte>, size: nat) returns (r: int)
      requires Formatted() && Valid(View()) && 0 !in name && buf != disk && size < WORD_LIMIT
      requires var f := Find(View().dir, name);
               f.Some? ==> var blocks := Min(size / BLOCK_SIZE, View().dir[f.value].size / BLOCK_SIZE) + 1;
                           blocks * BLOCK_SIZE <= buf.Length && View().dir[f.value].first + blocks <= TOTAL_BLOCKS
      modifies buf
      ensures match Find(View().dir, name)
              case None => r == -1 && buf[..] == old(buf[..])
              case Some(i) =>
                var e := View().dir[i];
                var len := (Min(size / BLOCK_SIZE, e.size / BLOCK_SIZE) + 1) * BLOCK_SIZE;
                r == AsInt(e.size) && FIRST_DATA_BLOCK <= e.first
                && buf[..] == Stretch(View().data, e.first, len) + old(buf[len..])
    {
      hide DirOf, BitsOf, WordIn, BlocksDistinct, BitsOwned, Counted, NamesTerminated;
      ghost var v := View();
      var i := FindFile(name);
      if i < 0 {
        return -1;
      }
      assert UsedSlot(v.dir, i);
      var fileSize := EntrySize(i);
      var blocks, fileBlocks := size / BLOCK_SIZE + 1, fileSize / BLOCK_SIZE + 1;
      if blocks > fileBlocks {
        blocks := fileBlocks;
      }
      var first := EntryFirst(i);
      ReadBlocks(first, buf, blocks);
      DataStretch(disk[..], first, blocks * BLOCK_SIZE);
      assert old(buf[..])[blocks * BLOCK_SIZE..] == old(buf[blocks * BLOCK_SIZE..]);
      r := AsInt(fileSize);
    }
  }
}
