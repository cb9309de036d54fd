/**
  Two-level page tables built over a bump frame allocator (`kernel/kernel.c`,
  `kernel/mm.c`), in the 32-bit paging format of section 4.3 of the Intel SDM,
  Volume 3A: bit 0 of an entry is the present bit, bits 12 to 31 the frame.

  Physical memory is modelled directly, as 32-bit words. Frames and pages are
  counted in units of 4096 bytes.
 */
module Paging {
  import opened Common

  const PAGE_SIZE: nat := 4096
  const ENTRIES: nat := 1024
  const FRAMES: nat := 0x8000         // 128 MiB of physical memory
  const WORDS: nat := FRAMES * ENTRIES
  const PAGES: nat := 0x10_0000       // 4 GiB of virtual addresses
  const DIRECTORY: nat := 0x9C        // page_directory at 0x9C000
  const KERNEL_TABLE: nat := 0x9D     // page_table_kernel at 0x9D000
  const KERNEL_TABLE2: nat := 0x9E    // page_table_kernel2 at 0x9E000
  const KERNEL_BASE: nat := 0x100     // the image is linked at 1 MiB

  const LOW_PAGES: nat := 2048         // the 8 MiB that the boot tables map
  const KERNEL_FLAGS: nat := 3        // PAGE_PRESENT | PAGE_WRITE
  const USER_FLAGS: nat := 7          // PAGE_PRESENT | PAGE_WRITE | PAGE_USER

  type Memory = seq<nat>

  predicate Present(e: nat) {
    e % 2 == 1
  }

  /** `e & ~0xFFF`, as a frame number. */
  function FrameOf(e: nat): nat {
    e / PAGE_SIZE
  }

  /** `(f * 4096) | flags`. */
  function EntryOf(f: nat, flags: nat): nat
    requires flags < PAGE_SIZE
  {
    f * PAGE_SIZE + flags
  }

  /** Word `i` of frame `f`. */
  function Index(f: nat, i: nat): nat {
    f * ENTRIES + i
  }

  function DirEntry(m: Memory, d: nat): nat
    requires |m| == WORDS && d < ENTRIES
  {
    m[Index(DIRECTORY, d)]
  }

  /** The hardware's walk: the frame page `p` translates to. */
  function Walk(m: Memory, p: nat): Option<nat>
    requires |m| == WORDS && p < PAGES
  {
    var e := DirEntry(m, p / ENTRIES);
    if !Present(e) || FrameOf(e) >= FRAMES then None
    else
      var t := m[Index(FrameOf(e), p % ENTRIES)];
      if Present(t) then Some(FrameOf(t)) else None
  }

  // ------------------------------------------------------------- invariant

  /** Every present directory entry has a table frame of its own, below the next free frame. */
  ghost predicate TablesOk(m: Memory, next: nat) {
    && |m| == WORDS && KERNEL_BASE <= next <= FRAMES
    && (forall d :: 0 <= d < ENTRIES && Present(DirEntry(m, d)) ==>
          FrameOf(DirEntry(m, d)) < next && FrameOf(DirEntry(m, d)) != DIRECTORY)
    && (forall d, c :: 0 <= d < ENTRIES && 0 <= c < ENTRIES && d != c
                       && Present(DirEntry(m, d)) && Present(DirEntry(m, c)) ==>
          FrameOf(DirEntry(m, d)) != FrameOf(DirEntry(m, c)))
  }

  /** Frame `f` holds a page table. */
  ghost predicate IsTable(m: Memory, f: nat)
    requires |m| == WORDS
  {
    exists d :: 0 <= d < ENTRIES && Present(DirEntry(m, d)) && FrameOf(DirEntry(m, d)) == f
  }

  lemma IndexInjective(f: nat, i: nat, g: nat, j: nat)
    requires i < ENTRIES && j < ENTRIES
    ensures Index(f, i) == Index(g, j) <==> f == g && i == j
  {}

  // ------------------------------------------------------------ operations

  /** Directory entry `d` set to a new table. */
  function WithTable(m: Memory, d: nat, f: nat, flags: nat): Memory
    requires |m| == WORDS && d < ENTRIES && flags < PAGE_SIZE
  {
    m[Index(DIRECTORY, d) := EntryOf(f, flags)]
  }

  function WithPage(m: Memory, p: nat, f: nat, flags: nat): Memory
    requires |m| == WORDS && p < PAGES && flags < PAGE_SIZE
    requires FrameOf(DirEntry(m, p / ENTRIES)) < FRAMES
  {
    m[Index(FrameOf(DirEntry(m, p / ENTRIES)), p % ENTRIES) := EntryOf(f, flags)]
  }

  predicate HasTable(m: Memory, p: nat)
    requires |m| == WORDS && p < PAGES
  {
    Present(DirEntry(m, p / ENTRIES))
  }

  /** What `alloc_page_frame` answers: the next frame, or 0 once physical memory is used up. */
  function FrameGot(next: nat): nat {
    if next < FRAMES then next else 0
  }

  function NextAfter(next: nat): nat {
    if next < FRAMES then next + 1 else next
  }

  /** `map_user_page` up to its last assignment: a new table is entered in the directory if one is needed. */
  function Installed(m: Memory, next: nat, p: nat): (Memory, nat)
    requires |m| == WORDS && p < PAGES
  {
    if HasTable(m, p) then (m, next)
    else (WithTable(m, p / ENTRIES, FrameGot(next), USER_FLAGS), NextAfter(next))
  }

  /** The frame of the table that page `p` is entered in. */
  function TableFrame(m: Memory, next: nat, p: nat): nat
    requires |m| == WORDS && p < PAGES
  {
    if HasTable(m, p) then FrameOf(DirEntry(m, p / ENTRIES)) else FrameGot(next)
  }

  lemma TableFrameIs(m: Memory, next: nat, p: nat)
    requires |m| == WORDS && p < PAGES
    ensures FrameOf(DirEntry(Installed(m, next, p).0, p / ENTRIES)) == TableFrame(m, next, p)
    ensures HasTable(Installed(m, next, p).0, p)
  {
    EntryParts(FrameGot(next), USER_FLAGS);
  }

  /**
    `map_user_page`: memory and next free frame afterwards. A new table keeps
    whatever its frame held; without a frame left it is put in frame 0.
   */
  function MapUser(m: Memory, next: nat, p: nat, f: nat, flags: nat): (Memory, nat)
    requires |m| == WORDS && p < PAGES && flags < PAGE_SIZE
    requires HasTable(m, p) ==> FrameOf(DirEntry(m, p / ENTRIES)) < FRAMES
  {
    var (t, n) := Installed(m, next, p);
    TableFrameIs(m, next, p);
    (WithPage(t, p, f, flags), n)
  }

  // ----------------------------------------------------- effects on the walk

  /** Writing one table entry changes the translation of that page and of no other. */
  lemma PageWritten(m: Memory, next: nat, p: nat, f: nat, flags: nat)
    requires TablesOk(m, next) && p < PAGES && HasTable(m, p) && flags < PAGE_SIZE && Present(flags)
    ensures var w := WithPage(m, p, f, flags);
            && TablesOk(w, next)
            && (forall d :: 0 <= d < ENTRIES ==> DirEntry(w, d) == DirEntry(m, d))
            && (forall q :: 0 <= q < PAGES ==> Walk(w, q) == if q == p then Some(f) else Walk(m, q))
  {
    var t := FrameOf(DirEntry(m, p / ENTRIES));
    var w := WithPage(m, p, f, flags);
    forall d | 0 <= d < ENTRIES ensures DirEntry(w, d) == DirEntry(m, d) {
      IndexInjective(DIRECTORY, d, t, p % ENTRIES);
    }
    EntryParts(f, flags);
    forall q | 0 <= q < PAGES ensures Walk(w, q) == if q == p then Some(f) else Walk(m, q) {
      PageWrittenAt(m, next, p, f, flags, q);
    }
  }

  lemma EntryParts(f: nat, flags: nat)
    requires flags < PAGE_SIZE
    ensures FrameOf(EntryOf(f, flags)) == f && (Present(EntryOf(f, flags)) <==> Present(flags))
  {
    assert EntryOf(f, flags) == 2 * (f * 2048) + flags;
  }

  lemma PageWrittenAt(m: Memory, next: nat, p: nat, f: nat, flags: nat, q: nat)
    requires TablesOk(m, next) && p < PAGES && HasTable(m, p) && flags < PAGE_SIZE && Present(flags) && q < PAGES
    ensures Walk(WithPage(m, p, f, flags), q) == if q == p then Some(f) else Walk(m, q)
  {
    var w := WithPage(m, p, f, flags);
    var t, u := FrameOf(DirEntry(m, p / ENTRIES)), FrameOf(DirEntry(m, q / ENTRIES));
    IndexInjective(DIRECTORY, q / ENTRIES, t, p % ENTRIES);
    EntryParts(f, flags);
    IndexInjective(t, p % ENTRIES, u, q % ENTRIES);
    if q / ENTRIES == p / ENTRIES && q % ENTRIES == p % ENTRIES { assert q == p; }
  }

  /** Installing a table in a free directory slot changes only what that slot translates. */
  lemma TableInstalled(m: Memory, next: nat, d: nat, g: nat, n: nat, flags: nat)
    requires TablesOk(m, next) && d < ENTRIES && !Present(DirEntry(m, d)) && next <= n <= FRAMES
    requires g < n && g != DIRECTORY && !IsTable(m, g) && flags < PAGE_SIZE && Present(flags)
    ensures var w := WithTable(m, d, g, flags);
            && TablesOk(w, n)
            && (forall q :: 0 <= q < PAGES && q / ENTRIES != d ==> Walk(w, q) == Walk(m, q))
            && (forall q :: 0 <= q < PAGES && q / ENTRIES == d ==>
                Walk(m, q) == None && Walk(w, q) == Leftover(m, g, q))
            && (forall f :: IsTable(w, f) <==> IsTable(m, f) || f == g)
  {
    var w := WithTable(m, d, g, flags);
    EntryParts(g, flags);
    forall c | 0 <= c < ENTRIES && c != d ensures DirEntry(w, c) == DirEntry(m, c) {
      IndexInjective(DIRECTORY, c, DIRECTORY, d);
    }
    assert DirEntry(w, d) == EntryOf(g, flags);
    forall q | 0 <= q < PAGES && q / ENTRIES != d ensures Walk(w, q) == Walk(m, q) {
      IndexInjective(FrameOf(DirEntry(m, q / ENTRIES)), q % ENTRIES, DIRECTORY, d);
    }
    forall q | 0 <= q < PAGES && q / ENTRIES == d ensures Walk(w, q) == Leftover(m, g, q) {
      IndexInjective(g, q % ENTRIES, DIRECTORY, d);
    }
    forall f ensures IsTable(w, f) <==> IsTable(m, f) || f == g {
      if IsTable(m, f) {
        var c :| 0 <= c < ENTRIES && Present(DirEntry(m, c)) && FrameOf(DirEntry(m, c)) == f;
        assert c != d && DirEntry(w, c) == DirEntry(m, c);
      }
      if f == g { assert FrameOf(DirEntry(w, d)) == f; }
    }
  }

  // ---------------------------------------------------------- map_user_page

  /** What a page shows in a new table whose frame was not cleared. */
  function Leftover(m: Memory, g: nat, q: nat): Option<nat>
    requires |m| == WORDS && g < FRAMES
  {
    var e := m[Index(g, q % ENTRIES)];
    if Present(e) then Some(FrameOf(e)) else None
  }

  /** Whether mapping page `p` makes page `q` show leftovers. */
  predicate Exposed(m: Memory, p: nat, q: nat)
    requires |m| == WORDS && p < PAGES
  {
    !HasTable(m, p) && q / ENTRIES == p / ENTRIES && q != p
  }

  /** A table, if a new one is needed, gets a frame that holds no table yet. */
  ghost predicate RoomFor(m: Memory, next: nat, p: nat)
    requires |m| == WORDS && p < PAGES
  {
    HasTable(m, p) || next < FRAMES || !IsTable(m, 0)
  }

  /** The translation of every page after one `map_user_page`. */
  lemma MapUserWalks(m: Memory, next: nat, p: nat, f: nat, flags: nat)
    requires TablesOk(m, next) && p < PAGES && RoomFor(m, next, p) && flags < PAGE_SIZE && Present(flags)
    ensures var (w, n) := MapUser(m, next, p, f, flags);
            && TablesOk(w, n) && next <= n <= next + 1
            && Walk(w, p) == Some(f)
            && (forall q :: 0 <= q < PAGES && q != p && !Exposed(m, p, q) ==> Walk(w, q) == Walk(m, q))
            && (forall q :: 0 <= q < PAGES && Exposed(m, p, q) ==>
                  Walk(m, q) == None && Walk(w, q) == Leftover(m, FrameGot(next), q))
            && (forall g :: IsTable(w, g) <==> IsTable(m, g) || (g == FrameGot(next) && !HasTable(m, p)))
  {
    if HasTable(m, p) {
      PageWritten(m, next, p, f, flags);
      SameTables(m, WithPage(m, p, f, flags));
    } else {
      var g := FrameGot(next);
      TableInstalled(m, next, p / ENTRIES, g, NextAfter(next), USER_FLAGS);
      EntryParts(g, USER_FLAGS);
      var t := WithTable(m, p / ENTRIES, g, USER_FLAGS);
      assert DirEntry(t, p / ENTRIES) == EntryOf(g, USER_FLAGS);
      PageWritten(t, NextAfter(next), p, f, flags);
      SameTables(t, WithPage(t, p, f, flags));
    }
  }

  lemma SameTables(m: Memory, w: Memory)
    requires |m| == |w| == WORDS && forall d :: 0 <= d < ENTRIES ==> DirEntry(w, d) == DirEntry(m, d)
    ensures forall g :: IsTable(w, g) <==> IsTable(m, g)
  {
    forall g | IsTable(w, g) ensures IsTable(m, g) {
      var d :| 0 <= d < ENTRIES && Present(DirEntry(w, d)) && FrameOf(DirEntry(w, d)) == g;
      assert DirEntry(m, d) == DirEntry(w, d);
    }
    forall g | IsTable(m, g) ensures IsTable(w, g) {
      var d :| 0 <= d < ENTRIES && Present(DirEntry(m, d)) && FrameOf(DirEntry(m, d)) == g;
      assert DirEntry(w, d) == DirEntry(m, d);
    }
  }

  /** Every page mapped before keeps its translation. */
  lemma MapUserKeepsOthers(m: Memory, next: nat, p: nat, f: nat, flags: nat, q: nat)
    requires TablesOk(m, next) && p < PAGES && RoomFor(m, next, p) && flags < PAGE_SIZE && Present(flags)
    requires q < PAGES && q != p && Walk(m, q).Some?
    ensures Walk(MapUser(m, next, p, f, flags).0, q) == Walk(m, q)
  {
    MapUserWalks(m, next, p, f, flags);
    assert !Exposed(m, p, q);
  }

  /** An unmapped page stays unmapped exactly when no leftover entry of the new table is present there. */
  lemma StaysUnmapped(m: Memory, next: nat, p: nat, f: nat, flags: nat, q: nat)
    requires TablesOk(m, next) && p < PAGES && RoomFor(m, next, p) && flags < PAGE_SIZE && Present(flags)
    requires q < PAGES && q != p && Walk(m, q).None?
    ensures Walk(MapUser(m, next, p, f, flags).0, q).None? <==>
            !(Exposed(m, p, q) && Present(m[Index(FrameGot(next), q % ENTRIES)]))
  {
    MapUserWalks(m, next, p, f, flags);
  }

  /**
    Page tables stay apart exactly when a new table's frame holds none yet. Once
    physical memory is used up, the second new table shares frame 0 with the first.
   */
  lemma TablesApart(m: Memory, next: nat, p: nat, f: nat, flags: nat)
    requires TablesOk(m, next) && p < PAGES && flags < PAGE_SIZE && Present(flags)
    ensures var (w, n) := MapUser(m, next, p, f, flags); TablesOk(w, n) <==> RoomFor(m, next, p)
  {
    if RoomFor(m, next, p) {
      MapUserWalks(m, next, p, f, flags);
    } else {
      var d :| 0 <= d < ENTRIES && Present(DirEntry(m, d)) && FrameOf(DirEntry(m, d)) == 0;
      var w := MapUser(m, next, p, f, flags).0;
      EntryParts(0, USER_FLAGS);
      IndexInjective(DIRECTORY, p / ENTRIES, DIRECTORY, d);
      IndexInjective(DIRECTORY, p / ENTRIES, 0, p % ENTRIES);
      IndexInjective(DIRECTORY, d, 0, p % ENTRIES);
      assert DirEntry(w, d) == DirEntry(m, d) && DirEntry(w, p / ENTRIES) == EntryOf(0, USER_FLAGS);
    }
  }

  /** Only the directory and table frames are written. */
  lemma MapUserWrites(m: Memory, next: nat, p: nat, f: nat, flags: nat, g: nat, i: nat)
    requires TablesOk(m, next) && p < PAGES && flags < PAGE_SIZE
    requires g < FRAMES && i < ENTRIES && g != DIRECTORY && !IsTable(m, g) && (HasTable(m, p) || g != FrameGot(next))
    ensures |MapUser(m, next, p, f, flags).0| == WORDS
    ensures MapUser(m, next, p, f, flags).0[Index(g, i)] == m[Index(g, i)]
  {
    var d := p / ENTRIES;
    IndexInjective(g, i, DIRECTORY, d);
    if HasTable(m, p) {
      assert IsTable(m, FrameOf(DirEntry(m, d)));
      IndexInjective(g, i, FrameOf(DirEntry(m, d)), p % ENTRIES);
    } else {
      EntryParts(FrameGot(next), USER_FLAGS);
      IndexInjective(g, i, FrameGot(next), p % ENTRIES);
    }
  }

  // --------------------------------------------------- access in user mode

  /** Bits 1 and 2 of an entry: writable, and open to user mode. */
  predicate UserBits(e: nat) {
    e / 2 % 4 == 3
  }

  /** User mode may read and write page `p`: both entries on its walk say so. */
  predicate UserAccess(m: Memory, p: nat)
    requires |m| == WORDS && p < PAGES
  {
    var e := DirEntry(m, p / ENTRIES);
    Present(e) && UserBits(e) && FrameOf(e) < FRAMES
    && var t := m[Index(FrameOf(e), p % ENTRIES)]; Present(t) && UserBits(t)
  }

  lemma EntryBits(f: nat, flags: nat)
    requires flags < PAGE_SIZE
    ensures UserBits(EntryOf(f, flags)) <==> UserBits(flags)
  {
    assert EntryOf(f, flags) == 8 * (f * 512) + flags;
    LowThree(f * 512, flags);
  }

  lemma LowThree(a: nat, b: nat)
    ensures (8 * a + b) / 2 % 4 == b / 2 % 4
  {
    assert (8 * a + b) / 2 == 4 * a + b / 2;
  }

  /**
    After `map_user_page` user mode may use the page if and only if it got a table of
    its own or its region was open already; no other page of a region with a table
    is opened or closed.
   */
  lemma MapUserAccess(m: Memory, next: nat, p: nat, f: nat, flags: nat)
    requires TablesOk(m, next) && p < PAGES && RoomFor(m, next, p)
    requires flags < PAGE_SIZE && Present(flags) && UserBits(flags)
    ensures var w := MapUser(m, next, p, f, flags).0;
            && |w| == WORDS
            && (UserAccess(w, p) <==> !HasTable(m, p) || UserBits(DirEntry(m, p / ENTRIES)))
            && (forall d :: 0 <= d < ENTRIES && Present(DirEntry(m, d)) ==> DirEntry(w, d) == DirEntry(m, d))
            && (forall q :: 0 <= q < PAGES && q != p && HasTable(m, q) ==> (UserAccess(w, q) <==> UserAccess(m, q)))
  {
    var (t, n) := Installed(m, next, p);
    var g := TableFrame(m, next, p);
    TableFrameIs(m, next, p);
    MapUserWalks(m, next, p, f, flags);
    if !HasTable(m, p) {
      TableInstalled(m, next, p / ENTRIES, FrameGot(next), NextAfter(next), USER_FLAGS);
    }
    assert TablesOk(t, n);
    hide TablesOk, Walk, IsTable, RoomFor;
    PageEntry(t, n, p, f, flags);
    EntryBits(FrameGot(next), USER_FLAGS);
    EntryParts(FrameGot(next), USER_FLAGS);
    forall q | 0 <= q < PAGES && q != p && HasTable(m, q)
      ensures UserAccess(MapUser(m, next, p, f, flags).0, q) <==> UserAccess(m, q)
    {
      InstallKeepsEntry(m, next, p, q);
    }
  }

  /** Entering a new table in the directory changes no entry of a table already there. */
  lemma InstallKeepsEntry(m: Memory, next: nat, p: nat, q: nat)
    requires |m| == WORDS && p < PAGES && q < PAGES && HasTable(m, q)
    requires TablesOk(m, next)
    ensures var t := Installed(m, next, p).0; |t| == WORDS && HasTable(t, q) && (UserAccess(t, q) <==> UserAccess(m, q))
  {
    var e := DirEntry(m, q / ENTRIES);
    IndexInjective(FrameOf(e), q % ENTRIES, DIRECTORY, p / ENTRIES);
    IndexInjective(DIRECTORY, q / ENTRIES, DIRECTORY, p / ENTRIES);
  }

  /** Writing one table entry opens its page, in an open region, and touches no other entry. */
  lemma PageEntry(m: Memory, next: nat, p: nat, f: nat, flags: nat)
    requires TablesOk(m, next) && p < PAGES && HasTable(m, p) && flags < PAGE_SIZE && Present(flags)
    ensures var w := WithPage(m, p, f, flags);
            && |w| == WORDS && (forall d :: 0 <= d < ENTRIES ==> DirEntry(w, d) == DirEntry(m, d))
            && (UserAccess(w, p) <==> UserBits(DirEntry(m, p / ENTRIES)) && UserBits(flags))
            && (forall q :: 0 <= q < PAGES && q != p && HasTable(m, q) ==> (UserAccess(w, q) <==> UserAccess(m, q)))
  {
    PageWritten(m, next, p, f, flags);
    EntryParts(f, flags);
    EntryBits(f, flags);
    var g := FrameOf(DirEntry(m, p / ENTRIES));
    forall q | 0 <= q < PAGES && q != p && HasTable(m, q)
      ensures UserAccess(WithPage(m, p, f, flags), q) <==> UserAccess(m, q)
    {
      IndexInjective(FrameOf(DirEntry(m, q / ENTRIES)), q % ENTRIES, g, p % ENTRIES);
    }
  }

  // ----------------------------------- writing tables with paging turned on

  // The code runs with paging on and writes a table at the virtual address that
  // equals the table's physical one. What it writes goes where that address
  // translates to.

  /** A store to word `i` of the virtual page `q`. None is a page fault; a word beyond memory is lost. */
  function Through(m: Memory, q: nat, i: nat, x: nat): Option<Memory>
    requires |m| == WORDS && q < PAGES && i < ENTRIES
  {
    match Walk(m, q)
    case None => None
    case Some(g) => Some(if g < FRAMES then m[Index(g, i) := x] else m)
  }

  /** `map_user_page` as it is carried out when the directory's page is mapped to itself; None is a page fault. */
  function MapUserThrough(m: Memory, next: nat, p: nat, f: nat, flags: nat): Option<(Memory, nat)>
    requires |m| == WORDS && p < PAGES && flags < PAGE_SIZE
    requires HasTable(m, p) ==> FrameOf(DirEntry(m, p / ENTRIES)) < FRAMES
  {
    var (t, n) := Installed(m, next, p);
    match Through(t, TableFrame(m, next, p), p % ENTRIES, EntryOf(f, flags))
    case None => None
    case Some(w) => Some((w, n))
  }

  /** The table's own address leads to the table when the code writes to it. */
  predicate InReach(m: Memory, next: nat, p: nat)
    requires |m| == WORDS && p < PAGES && TableFrame(m, next, p) < PAGES
  {
    Walk(Installed(m, next, p).0, TableFrame(m, next, p)) == Some(TableFrame(m, next, p))
  }

  /** The directory's page and those of all tables translate to themselves. */
  ghost predicate SelfMapped(m: Memory)
    requires |m| == WORDS
  {
    Walk(m, DIRECTORY) == Some(DIRECTORY) && forall g :: 0 <= g < PAGES && IsTable(m, g) ==> Walk(m, g) == Some(g)
  }

  /** The kernel's first 8 MiB translate to themselves. */
  ghost predicate LowIdentity(m: Memory)
    requires |m| == WORDS
  {
    forall q :: 0 <= q < LOW_PAGES ==> Walk(m, q) == Some(q)
  }

  /** In reach, the stores are those of `MapUser`. */
  lemma ThroughIs(m: Memory, next: nat, p: nat, f: nat, flags: nat)
    requires |m| == WORDS && p < PAGES && flags < PAGE_SIZE && TableFrame(m, next, p) < FRAMES && InReach(m, next, p)
    ensures MapUserThrough(m, next, p, f, flags) == Some(MapUser(m, next, p, f, flags))
  {
    TableFrameIs(m, next, p);
  }

  /**
    An existing table is in reach. A new one is if and only if its page was mapped
    to itself, unless it is to map its own page; otherwise the code faults.
   */
  lemma ReachExact(m: Memory, next: nat, p: nat, f: nat, flags: nat)
    requires TablesOk(m, next) && p < PAGES && RoomFor(m, next, p) && SelfMapped(m) && flags < PAGE_SIZE
    ensures TableFrame(m, next, p) < FRAMES
    ensures HasTable(m, p) ==> InReach(m, next, p)
    ensures var g := TableFrame(m, next, p);
            !HasTable(m, p) && g / ENTRIES != p / ENTRIES ==>
              && (InReach(m, next, p) <==> Walk(m, g) == Some(g))
              && (MapUserThrough(m, next, p, f, flags).None? <==> Walk(m, g).None?)
  {
    if HasTable(m, p) {
      assert IsTable(m, TableFrame(m, next, p));
    } else {
      TableInstalled(m, next, p / ENTRIES, FrameGot(next), NextAfter(next), USER_FLAGS);
    }
  }

  /** Tables in the first 8 MiB are in reach from the boot mappings on. */
  lemma LowReach(m: Memory, next: nat, p: nat)
    requires TablesOk(m, next) && p < PAGES && RoomFor(m, next, p) && SelfMapped(m) && LowIdentity(m)
    requires HasTable(m, p) || FrameGot(next) < LOW_PAGES
    ensures TableFrame(m, next, p) < FRAMES && InReach(m, next, p)
  {
    var g := TableFrame(m, next, p);
    ReachExact(m, next, p, 0, USER_FLAGS);
    assert !HasTable(m, p) ==> Walk(m, g) == Some(g) && g / ENTRIES != p / ENTRIES;
  }

  /** What `map_user_page` leaves behind, told apart from what it has done before its last store. */
  lemma AfterInstall(m: Memory, next: nat, p: nat, f: nat, flags: nat)
    requires TablesOk(m, next) && p < PAGES && RoomFor(m, next, p) && flags < PAGE_SIZE && Present(flags)
    ensures var t := Installed(m, next, p).0; var w := MapUser(m, next, p, f, flags).0;
            && |t| == |w| == WORDS
            && (forall q :: 0 <= q < PAGES && q != p ==> Walk(w, q) == Walk(t, q))
            && (forall g :: IsTable(w, g) <==> IsTable(t, g))
            && (forall g :: IsTable(t, g) <==> IsTable(m, g) || (g == FrameGot(next) && !HasTable(m, p)))
            && (forall q :: 0 <= q < PAGES && Walk(m, q).Some? ==> Walk(t, q) == Walk(m, q))
  {
    var (t, n) := Installed(m, next, p);
    TableFrameIs(m, next, p);
    if !HasTable(m, p) {
      TableInstalled(m, next, p / ENTRIES, FrameGot(next), NextAfter(next), USER_FLAGS);
    }
    PageWritten(t, n, p, f, flags);
    SameTables(t, MapUser(m, next, p, f, flags).0);
  }

  // -------------------------------------------------------------- whole runs

  /** Memory, the next free frame, and the pages given to users with their frames. */
  datatype Kernel = Kernel(mem: Memory, next: nat, pages: map<nat, nat>)

  /** Map a page to a fresh frame, as kernel_main does, or let a user store a word in a page it was given. */
  datatype Op = MapFresh(page: nat) | Store(page: nat, i: nat, x: nat)

  /**
    The walk gives every user page its frame; frames are distinct and none is a
    table or the directory; the code reaches its tables. Frame 0 is what an
    allocation without a frame left answers.
   */
  ghost predicate Inv(k: Kernel) {
    TablesOk(k.mem, k.next) && SelfMapped(k.mem) && PagesOk(k.mem, k.next, k.pages) && FramesDistinct(k.pages)
  }

  ghost predicate PagesOk(m: Memory, next: nat, pages: map<nat, nat>)
    requires |m| == WORDS
  {
    forall p :: p in pages ==>
      p < PAGES && Walk(m, p) == Some(pages[p]) && !IsTable(m, pages[p])
      && (pages[p] == 0 || KERNEL_BASE <= pages[p]) && pages[p] < next
  }

  ghost predicate FramesDistinct(pages: map<nat, nat>) {
    forall p, q :: p in pages && q in pages && p != q ==> pages[p] != pages[q]
  }

  /** How many of the frames that mapping a page asks for are answered with 0. */
  function Refused(m: Memory, next: nat, p: nat): nat
    requires |m| == WORDS && p < PAGES
  {
    (if next < FRAMES then 0 else 1) + (if HasTable(m, p) || NextAfter(next) < FRAMES then 0 else 1)
  }

  /** There are frames left, or one is missing and frame 0 serves nobody else yet. */
  ghost predicate Spare(k: Kernel, p: nat)
    requires |k.mem| == WORDS && p < PAGES
  {
    Refused(k.mem, k.next, p) == 0
    || (Refused(k.mem, k.next, p) == 1 && !IsTable(k.mem, 0) && forall q :: q in k.pages && q != p ==> k.pages[q] != 0)
  }

  /** The call reaches the table it writes, and does not map away the directory or a table. */
  ghost predicate Safe(k: Kernel, p: nat) {
    && p < PAGES && |k.mem| == WORDS
    && var n := NextAfter(k.next);
       && TableFrame(k.mem, n, p) < FRAMES && InReach(k.mem, n, p)
       && p != DIRECTORY && !IsTable(Installed(k.mem, n, p).0, p)
  }

  ghost predicate Possible(k: Kernel, op: Op) {
    match op
    case MapFresh(p) => Safe(k, p) && Spare(k, p)
    case Store(p, i, _) => p in k.pages && i < ENTRIES
  }

  /** `map_user_page(p, alloc_page_frame())`. */
  ghost function Mapped(k: Kernel, p: nat): Kernel
    requires Safe(k, p)
  {
    ThroughIs(k.mem, NextAfter(k.next), p, FrameGot(k.next), USER_FLAGS);
    var (w, n) := MapUserThrough(k.mem, NextAfter(k.next), p, FrameGot(k.next), USER_FLAGS).value;
    Kernel(w, n, k.pages[p := FrameGot(k.next)])
  }

  ghost function Do(k: Kernel, op: Op): Kernel
    requires Inv(k) && Possible(k, op)
  {
    match op
    case MapFresh(p) => Mapped(k, p)
    case Store(p, i, x) => k.(mem := k.mem[Index(k.pages[p], i) := x])
  }

  lemma MappedIs(k: Kernel, p: nat)
    requires Safe(k, p)
    ensures var (w, n) := MapUser(k.mem, NextAfter(k.next), p, FrameGot(k.next), USER_FLAGS);
            Mapped(k, p) == Kernel(w, n, k.pages[p := FrameGot(k.next)])
  {
    ThroughIs(k.mem, NextAfter(k.next), p, FrameGot(k.next), USER_FLAGS);
  }

  lemma LaterFrames(m: Memory, next: nat, n: nat)
    requires TablesOk(m, next) && next <= n <= FRAMES
    ensures TablesOk(m, n) && forall f :: f >= next ==> !IsTable(m, f)
  {}

  /** The frames handed out: where they lie, and when the table's finds room. */
  lemma FrameRanges(k: Kernel, p: nat)
    requires Inv(k) && p < PAGES
    ensures var n := NextAfter(k.next);
            && TablesOk(k.mem, n) && KERNEL_BASE <= k.next <= n <= FRAMES
            && (Spare(k, p) ==> RoomFor(k.mem, n, p) && !IsTable(k.mem, FrameGot(k.next)))
            && (Spare(k, p) && !HasTable(k.mem, p) ==> FrameGot(k.next) != FrameGot(n))
  {
    LaterFrames(k.mem, k.next, NextAfter(k.next));
  }

  /** One call, in terms of what the invariant speaks of. */
  lemma MappedFacts(k: Kernel, p: nat)
    requires Inv(k) && Safe(k, p)
    ensures var j, n, f := Mapped(k, p), NextAfter(k.next), FrameGot(k.next);
            && |j.mem| == WORDS && j.pages == k.pages[p := f]
            && (TablesOk(j.mem, j.next) <==> RoomFor(k.mem, n, p))
            && (RoomFor(k.mem, n, p) ==>
                  && n <= j.next && Walk(j.mem, p) == Some(f)
                  && (forall q :: 0 <= q < PAGES && q != p && Walk(k.mem, q).Some? ==> Walk(j.mem, q) == Walk(k.mem, q))
                  && (forall g :: IsTable(j.mem, g) <==>
                                  IsTable(k.mem, g) || (g == FrameGot(n) && !HasTable(k.mem, p))))
  {
    FrameRanges(k, p);
    MappedIs(k, p);
    var n, f := NextAfter(k.next), FrameGot(k.next);
    hide Walk, TablesOk, MapUser, IsTable, Installed, MapUserThrough, InReach, Mapped, SelfMapped, PagesOk;
    TablesApart(k.mem, n, p, f, USER_FLAGS);
    if RoomFor(k.mem, n, p) {
      MapUserWalks(k.mem, n, p, f, USER_FLAGS);
      AfterInstall(k.mem, n, p, f, USER_FLAGS);
    }
  }

  lemma MapFreshKeeps(k: Kernel, p: nat)
    requires Inv(k) && Safe(k, p) && Spare(k, p)
    ensures Inv(Mapped(k, p))
  {
    hide Walk, TablesOk, IsTable, RoomFor, SelfMapped, Mapped, Safe;
    SafePage(k, p);
    FrameRanges(k, p);
    MappedFacts(k, p);
    FramesStayDistinct(k, p);
    MapFreshReach(k, p);
    MapFreshPages(k, p);
  }

  lemma FramesStayDistinct(k: Kernel, p: nat)
    requires Inv(k) && p < PAGES && Spare(k, p)
    ensures FramesDistinct(k.pages[p := FrameGot(k.next)])
  {
    hide Walk, TablesOk, IsTable, HasTable, SelfMapped;
  }

  lemma MapFreshReach(k: Kernel, p: nat)
    requires Inv(k) && Safe(k, p) && Spare(k, p)
    ensures |Mapped(k, p).mem| == WORDS && SelfMapped(Mapped(k, p).mem)
  {
    FrameRanges(k, p);
    MappedIs(k, p);
    var n, f := NextAfter(k.next), FrameGot(k.next);
    hide Walk, TablesOk, MapUser, IsTable, RoomFor, Installed, MapUserThrough, Mapped, PagesOk, FramesDistinct, Spare;
    AfterInstall(k.mem, n, p, f, USER_FLAGS);
    var w := Mapped(k, p).mem;
    forall g | 0 <= g < PAGES && IsTable(w, g) ensures Walk(w, g) == Some(g) {
      if IsTable(k.mem, g) { assert Walk(k.mem, g) == Some(g); }
    }
  }

  lemma MapFreshPages(k: Kernel, p: nat)
    requires Inv(k) && Safe(k, p) && Spare(k, p)
    ensures |Mapped(k, p).mem| == WORDS && PagesOk(Mapped(k, p).mem, Mapped(k, p).next, Mapped(k, p).pages)
  {
    hide Walk, TablesOk, IsTable, RoomFor, Mapped, SelfMapped, FramesDistinct, Safe;
    SafePage(k, p);
    FrameRanges(k, p);
    MappedFacts(k, p);
    var j := Mapped(k, p);
    forall q | q in k.pages && q != p
      ensures Walk(j.mem, q) == Some(k.pages[q]) && !IsTable(j.mem, k.pages[q]) && k.pages[q] < j.next
    {
      assert Walk(k.mem, q) == Some(k.pages[q]);
    }
  }

  lemma SafePage(k: Kernel, p: nat)
    requires Safe(k, p)
    ensures p < PAGES
  {}

  /**
    A call that reaches its table keeps user frames distinct and apart from the
    tables if and only if no frame is missing, or one is and frame 0 is unused.
   */
  lemma SpareExact(k: Kernel, p: nat)
    requires Inv(k) && Safe(k, p)
    ensures Inv(Mapped(k, p)) <==> Spare(k, p)
  {
    if Spare(k, p) {
      MapFreshKeeps(k, p);
    } else {
      NoSpareBreaks(k, p);
    }
  }

  lemma NoSpareBreaks(k: Kernel, p: nat)
    requires Inv(k) && Safe(k, p) && !Spare(k, p)
    ensures !Inv(Mapped(k, p))
  {
    hide Walk, TablesOk, IsTable, Mapped, SelfMapped, Safe, HasTable;
    SafePage(k, p);
    FrameRanges(k, p);
    MappedFacts(k, p);
    var j := Mapped(k, p);
    if RoomFor(k.mem, NextAfter(k.next), p) && Refused(k.mem, k.next, p) == 1 && !IsTable(k.mem, 0) {
      var q :| q in k.pages && q != p && k.pages[q] == 0;
      assert j.pages[q] == 0;
    }
    assert j.pages[p] == FrameGot(k.next);
  }

  /** A word stored in a frame that is neither the directory nor a table changes no translation. */
  lemma StoreKeeps(m: Memory, next: nat, f: nat, i: nat, x: nat)
    requires TablesOk(m, next) && f < FRAMES && i < ENTRIES && f != DIRECTORY && !IsTable(m, f)
    ensures var w := m[Index(f, i) := x];
            && TablesOk(w, next) && (forall g :: IsTable(w, g) ==> IsTable(m, g))
            && (forall q :: 0 <= q < PAGES ==> Walk(w, q) == Walk(m, q))
  {
    var w := m[Index(f, i) := x];
    forall d | 0 <= d < ENTRIES ensures DirEntry(w, d) == DirEntry(m, d) { IndexInjective(DIRECTORY, d, f, i); }
    SameTables(m, w);
    forall q | 0 <= q < PAGES ensures Walk(w, q) == Walk(m, q) {
      var e := DirEntry(m, q / ENTRIES);
      if Present(e) { assert IsTable(m, FrameOf(e)); }
      IndexInjective(FrameOf(e), q % ENTRIES, f, i);
    }
  }

  lemma DoKeeps(k: Kernel, op: Op)
    requires Inv(k) && Possible(k, op)
    ensures Inv(Do(k, op))
  {
    assert op.Store? ==> k.pages[op.page] < FRAMES;
    hide Walk, TablesOk, IsTable, FramesDistinct, Mapped, Safe, Spare;
    match op
    case MapFresh(p) => MapFreshKeeps(k, p);
    case Store(p, i, x) => StoreKeeps(k.mem, k.next, k.pages[p], i, x);
  }

  /** Each step of the run is possible when it is taken. */
  ghost predicate CanRun(k: Kernel, ops: seq<Op>)
    requires Inv(k)
    decreases |ops|
  {
    ops == [] || (Possible(k, ops[0]) && (DoKeeps(k, ops[0]); CanRun(Do(k, ops[0]), ops[1..])))
  }

  ghost function RunOf(k: Kernel, ops: seq<Op>): Kernel
    requires Inv(k) && CanRun(k, ops)
    decreases |ops|
  {
    if ops == [] then k else DoKeeps(k, ops[0]); RunOf(Do(k, ops[0]), ops[1..])
  }

  /**
    Over every run of fresh mappings and user stores: every user page walks to
    its own frame, no user frame is a page table, and a page not mapped again
    keeps its frame.
   */
  lemma {:induction false} RunKeeps(k: Kernel, ops: seq<Op>)
    requires Inv(k) && CanRun(k, ops)
    ensures var j := RunOf(k, ops);
            Inv(j) && forall p :: p in k.pages && MapFresh(p) !in ops ==> p in j.pages && j.pages[p] == k.pages[p]
    decreases |ops|
  {
    hide Inv, Possible;
    if ops != [] {
      DoKeeps(k, ops[0]);
      RunKeeps(Do(k, ops[0]), ops[1..]);
      assert forall p :: MapFresh(p) !in ops ==> MapFresh(p) !in ops[1..] && ops[0] != MapFresh(p);
    }
  }

  lemma StepTranslates(k: Kernel, op: Op, q: nat)
    requires Inv(k) && Possible(k, op) && q < PAGES && Walk(k.mem, q).Some? && op != MapFresh(q)
    ensures Inv(Do(k, op)) && Walk(Do(k, op).mem, q) == Walk(k.mem, q)
  {
    DoKeeps(k, op);
    match op
    case MapFresh(p) =>
      FrameRanges(k, p);
      MappedIs(k, p);
      hide Walk, TablesOk, MapUser, IsTable, HasTable, Exposed, RoomFor, Mapped, SelfMapped, PagesOk;
      MapUserKeepsOthers(k.mem, NextAfter(k.next), p, FrameGot(k.next), USER_FLAGS, q);
    case Store(p, i, x) => StoreKeeps(k.mem, k.next, k.pages[p], i, x);
  }

  /** Over every run each page mapped before, the kernel's and the framebuffer's included, keeps its translation. */
  lemma {:induction false} RunTranslates(k: Kernel, ops: seq<Op>, q: nat)
    requires Inv(k) && CanRun(k, ops) && q < PAGES && Walk(k.mem, q).Some? && MapFresh(q) !in ops
    ensures |RunOf(k, ops).mem| == WORDS && Walk(RunOf(k, ops).mem, q) == Walk(k.mem, q)
    decreases |ops|
  {
    hide Possible, Walk;
    if ops != [] {
      StepTranslates(k, ops[0], q);
      RunTranslates(Do(k, ops[0]), ops[1..], q);
    }
  }

  lemma StoreAccess(m: Memory, f: nat, i: nat, x: nat, q: nat)
    requires |m| == WORDS && f < FRAMES && i < ENTRIES && f != DIRECTORY && !IsTable(m, f)
    requires q < PAGES && HasTable(m, q)
    ensures var w := m[Index(f, i) := x];
            && |w| == WORDS && DirEntry(w, q / ENTRIES) == DirEntry(m, q / ENTRIES)
            && (UserAccess(w, q) <==> UserAccess(m, q))
  {
    var e := DirEntry(m, q / ENTRIES);
    assert IsTable(m, FrameOf(e));
    IndexInjective(DIRECTORY, q / ENTRIES, f, i);
    IndexInjective(FrameOf(e), q % ENTRIES, f, i);
  }

  lemma MappedAccess(k: Kernel, p: nat, q: nat)
    requires Inv(k) && Safe(k, p) && Spare(k, p) && q < PAGES && HasTable(k.mem, q)
    ensures var w := Mapped(k, p).mem;
            && |w| == WORDS && DirEntry(w, q / ENTRIES) == DirEntry(k.mem, q / ENTRIES)
            && (p != q ==> (UserAccess(w, q) <==> UserAccess(k.mem, q)))
  {
    hide Walk, TablesOk, MapUser, IsTable, RoomFor, Mapped, SelfMapped, PagesOk, UserAccess, Safe;
    SafePage(k, p);
    FrameRanges(k, p);
    MappedIs(k, p);
    MapUserAccess(k.mem, NextAfter(k.next), p, FrameGot(k.next), USER_FLAGS);
  }

  lemma StepAccess(k: Kernel, op: Op, q: nat)
    requires Inv(k) && Possible(k, op) && q < PAGES && HasTable(k.mem, q)
    ensures var w := Do(k, op).mem;
            && Inv(Do(k, op)) && DirEntry(w, q / ENTRIES) == DirEntry(k.mem, q / ENTRIES)
            && (op != MapFresh(q) ==> (UserAccess(w, q) <==> UserAccess(k.mem, q)))
  {
    assert op.Store? ==> k.pages[op.page] < FRAMES;
    hide Walk, TablesOk, IsTable, FramesDistinct, Mapped, Safe, Spare, SelfMapped, UserAccess;
    DoKeeps(k, op);
    match op
    case MapFresh(p) => MappedAccess(k, p, q);
    case Store(p, i, x) => StoreAccess(k.mem, k.pages[p], i, x, q);
  }

  /**
    Over every run a region closed to user mode, like the kernel's, stays closed, and
    a page that is not mapped again stays as open or closed as it was.
   */
  lemma {:induction false} RunProtects(k: Kernel, ops: seq<Op>, q: nat)
    requires Inv(k) && CanRun(k, ops) && q < PAGES && HasTable(k.mem, q)
    ensures var w := RunOf(k, ops).mem;
            && |w| == WORDS && DirEntry(w, q / ENTRIES) == DirEntry(k.mem, q / ENTRIES)
            && (!UserBits(DirEntry(k.mem, q / ENTRIES)) ==> !UserAccess(w, q))
            && (MapFresh(q) !in ops ==> (UserAccess(w, q) <==> UserAccess(k.mem, q)))
    decreases |ops|
  {
    if ops != [] {
      StepAccess(k, ops[0], q);
      hide Inv, Possible, Do;
      RunProtects(Do(k, ops[0]), ops[1..], q);
    }
  }

  /** A word of a user page changes only by a store to that very word or when the page is mapped again. */
  lemma UserDataKept(k: Kernel, op: Op, p: nat, i: nat)
    requires Inv(k) && Possible(k, op) && p in k.pages && i < ENTRIES && op != MapFresh(p)
    requires op.Store? ==> !(op.page == p && op.i == i)
    ensures var j := Do(k, op);
            |j.mem| == WORDS && j.pages[p] == k.pages[p] && j.mem[Index(k.pages[p], i)] == k.mem[Index(k.pages[p], i)]
  {
    match op
    case MapFresh(q) =>
      FrameRanges(k, q);
      MappedIs(k, q);
      hide Walk, TablesOk, MapUser, IsTable, Mapped, SelfMapped, MapUserThrough, Installed, InReach;
      MapUserWrites(k.mem, NextAfter(k.next), q, FrameGot(k.next), USER_FLAGS, k.pages[p], i);
    case Store(q, j, _) => IndexInjective(k.pages[p], i, k.pages[q], j);
  }

  /** Over every run a word of a user page keeps its value until it is stored to or its page is mapped again. */
  lemma {:induction false} RunKeepsData(k: Kernel, ops: seq<Op>, p: nat, i: nat)
    requires Inv(k) && CanRun(k, ops) && p in k.pages && i < ENTRIES && MapFresh(p) !in ops
    requires forall op :: op in ops && op.Store? ==> !(op.page == p && op.i == i)
    ensures var j := RunOf(k, ops);
            |j.mem| == |k.mem| == WORDS && k.pages[p] < FRAMES
            && j.mem[Index(k.pages[p], i)] == k.mem[Index(k.pages[p], i)]
    decreases |ops|
  {
    if ops != [] {
      hide Possible;
      DoKeeps(k, ops[0]);
      assert ops[0] in ops;
      UserDataKept(k, ops[0], p, i);
      PagesKept(k, ops[0], p);
      RunKeepsData(Do(k, ops[0]), ops[1..], p, i);
    }
  }

  lemma PagesKept(k: Kernel, op: Op, p: nat)
    requires Inv(k) && Possible(k, op) && p in k.pages
    ensures p in Do(k, op).pages
  {}

  // ------------------------------------------------------- boot page tables

  function InitialDirEntry(d: nat): nat {
    if d == 0 then EntryOf(KERNEL_TABLE, KERNEL_FLAGS) else if d == 1 then EntryOf(KERNEL_TABLE2, KERNEL_FLAGS) else 0
  }

  /** What `init_paging` writes: an empty directory but for two identity tables over the first 8 MiB. */
  ghost predicate Initialised(m: Memory) {
    && |m| == WORDS
    && (forall d :: 0 <= d < ENTRIES ==> DirEntry(m, d) == InitialDirEntry(d))
    && (forall i :: 0 <= i < ENTRIES ==> m[Index(KERNEL_TABLE, i)] == EntryOf(i, KERNEL_FLAGS))
    && (forall i :: 0 <= i < ENTRIES ==> m[Index(KERNEL_TABLE2, i)] == EntryOf(ENTRIES + i, KERNEL_FLAGS))
  }

  /** After it the first 2048 pages translate to themselves and no other page is mapped. */
  lemma InitialWalks(m: Memory, next: nat)
    requires Initialised(m) && KERNEL_BASE <= next <= FRAMES
    ensures TablesOk(m, next) && Inv(Kernel(m, next, map[])) && LowIdentity(m)
    ensures forall q :: 0 <= q < PAGES ==> Walk(m, q) == if q < 2 * ENTRIES then Some(q) else None
  {
    EntryParts(KERNEL_TABLE, KERNEL_FLAGS);
    EntryParts(KERNEL_TABLE2, KERNEL_FLAGS);
    forall q | 0 <= q < PAGES ensures Walk(m, q) == if q < 2 * ENTRIES then Some(q) else None {
      EntryParts(q % ENTRIES, KERNEL_FLAGS);
      EntryParts(ENTRIES + q % ENTRIES, KERNEL_FLAGS);
      assert DirEntry(m, q / ENTRIES) == DirEntry(m, q / ENTRIES);
    }
  }

  /** None of the boot mappings is open to user mode. */
  lemma InitialClosed(m: Memory, q: nat)
    requires Initialised(m) && q < PAGES
    ensures !UserAccess(m, q) && (HasTable(m, q) <==> q < LOW_PAGES)
    ensures HasTable(m, q) ==> !UserBits(DirEntry(m, q / ENTRIES))
  {
    EntryParts(KERNEL_TABLE, KERNEL_FLAGS);
    EntryParts(KERNEL_TABLE2, KERNEL_FLAGS);
    EntryBits(KERNEL_TABLE, KERNEL_FLAGS);
    EntryBits(KERNEL_TABLE2, KERNEL_FLAGS);
    assert DirEntry(m, q / ENTRIES) == InitialDirEntry(q / ENTRIES);
  }

  /** A present word left in the first frame handed out shows up as page 2049 once page 2048 is mapped. */
  lemma LeftoverHappens(m: Memory, next: nat, f: nat)
    requires Initialised(m) && KERNEL_BASE <= next < FRAMES && Present(m[Index(next, 1)])
    ensures Walk(m, 2049) == None
    ensures |MapUser(m, next, 2048, f, USER_FLAGS).0| == WORDS
    ensures Walk(MapUser(m, next, 2048, f, USER_FLAGS).0, 2049) == Some(FrameOf(m[Index(next, 1)]))
  {
    InitialWalks(m, next);
    assert !HasTable(m, 2048) && Exposed(m, 2048, 2049);
    MapUserWalks(m, next, 2048, f, USER_FLAGS);
  }

  /** From the boot tables on, a new table at or above 8 MiB faults, unless its own region is being mapped. */
  lemma FarTableFaults(m: Memory, next: nat, p: nat, f: nat)
    requires Initialised(m) && LOW_PAGES <= next < FRAMES && LOW_PAGES <= p < PAGES && next / ENTRIES != p / ENTRIES
    ensures MapUserThrough(m, next, p, f, USER_FLAGS).None?
  {
    InitialWalks(m, next);
    assert Walk(m, p).None? && !HasTable(m, p);
    ReachExact(m, next, p, f, USER_FLAGS);
  }

  /** Without a frame left, two regions share the table in frame 0: mapping page 3072 remaps page 2048. */
  lemma SharedTableHappens(m: Memory, f: nat, g: nat)
    requires Initialised(m)
    ensures var a := MapUserThrough(m, FRAMES, 2048, f, USER_FLAGS);
            && a.Some? && |a.value.0| == WORDS && Walk(a.value.0, 2048) == Some(f) && a.value.1 == FRAMES
            && (HasTable(a.value.0, 3072) ==> FrameOf(DirEntry(a.value.0, 3)) < FRAMES)
            && var b := MapUserThrough(a.value.0, FRAMES, 3072, g, USER_FLAGS);
               b.Some? && |b.value.0| == WORDS && Walk(b.value.0, 2048) == Some(g) == Walk(b.value.0, 3072)
  {
    SharedFirst(m, f);
    var a := MapUserThrough(m, FRAMES, 2048, f, USER_FLAGS).value.0;
    assert DirEntry(a, 3) == DirEntry(m, 3) == 0 && DirEntry(a, 2) == EntryOf(0, USER_FLAGS);
    hide MapUserThrough;
    SharedSecond(a, g);
  }

  lemma SharedSecond(a: Memory, g: nat)
    requires |a| == WORDS && DirEntry(a, 3) == 0 && DirEntry(a, 2) == EntryOf(0, USER_FLAGS) && Walk(a, 0) == Some(0)
    ensures var b := MapUserThrough(a, FRAMES, 3072, g, USER_FLAGS);
            b.Some? && |b.value.0| == WORDS && Walk(b.value.0, 2048) == Some(g) == Walk(b.value.0, 3072)
  {
    EntryParts(g, USER_FLAGS);
    EntryParts(0, USER_FLAGS);
    var t := Installed(a, FRAMES, 3072).0;
    assert !HasTable(a, 3072) && t == a[Index(DIRECTORY, 3) := EntryOf(0, USER_FLAGS)];
    if FrameOf(DirEntry(a, 0)) < FRAMES {
      IndexInjective(FrameOf(DirEntry(a, 0)), 0, DIRECTORY, 3);
    }
    assert Walk(t, 0) == Some(0);
    assert MapUserThrough(a, FRAMES, 3072, g, USER_FLAGS) == Some((t[0 := EntryOf(g, USER_FLAGS)], FRAMES));
  }

  lemma SharedFirst(m: Memory, f: nat)
    requires Initialised(m)
    ensures var a := MapUserThrough(m, FRAMES, 2048, f, USER_FLAGS);
            && a == Some((m[Index(DIRECTORY, 2) := EntryOf(0, USER_FLAGS)][0 := EntryOf(f, USER_FLAGS)], FRAMES))
            && |a.value.0| == WORDS && Walk(a.value.0, 2048) == Some(f) && Walk(a.value.0, 0) == Some(0)
  {
    InitialWalks(m, FRAMES);
    EntryParts(f, USER_FLAGS);
    EntryParts(0, USER_FLAGS);
    assert Walk(m, 2048).None? && DirEntry(m, 2) == 0;
    LowReach(m, FRAMES, 2048);
    ThroughIs(m, FRAMES, 2048, f, USER_FLAGS);
    MapUserWalks(m, FRAMES, 2048, f, USER_FLAGS);
  }

  /** And a user who asks for a page then gets frame 0, the very table that maps the page. */
  lemma OwnTableHappens(m: Memory)
    requires Initialised(m)
    ensures var k := Kernel(m, FRAMES, map[]);
            && Safe(k, 2048) && !Inv(Mapped(k, 2048))
            && var w := Mapped(k, 2048).mem; |w| == WORDS && Walk(w, 2048) == Some(0) && IsTable(w, 0)
  {
    InitialWalks(m, FRAMES);
    var k := Kernel(m, FRAMES, map[]);
    assert Walk(m, 2048).None? && DirEntry(m, 2) == 0;
    LowReach(m, FRAMES, 2048);
    MapUserWalks(m, FRAMES, 2048, 0, USER_FLAGS);
    AfterInstall(m, FRAMES, 2048, 0, USER_FLAGS);
    hide Walk, MapUser, Installed, TablesOk, MapUserThrough, InReach, SelfMapped;
    assert Safe(k, 2048);
    MappedIs(k, 2048);
    SpareExact(k, 2048);
  }

  ghost predicate MapsHigh(ops: seq<Op>) {
    forall op :: op in ops ==> op.MapFresh? && LOW_PAGES <= op.page < PAGES
  }

  lemma LowStep(k: Kernel, p: nat)
    requires Inv(k) && LowIdentity(k.mem) && LOW_PAGES <= p < PAGES && k.next + 2 <= LOW_PAGES
    ensures Possible(k, MapFresh(p))
    ensures var j := Do(k, MapFresh(p)); |j.mem| == WORDS && LowIdentity(j.mem) && j.next <= k.next + 2
  {
    FrameRanges(k, p);
    LowReach(k.mem, NextAfter(k.next), p);
    LowTables(k, p);
    assert Possible(k, MapFresh(p));
    MappedIs(k, p);
    MapUserWalks(k.mem, NextAfter(k.next), p, FrameGot(k.next), USER_FLAGS);
    hide Walk, TablesOk, SelfMapped, PagesOk, InReach, MapUserThrough, Mapped;
    forall q | 0 <= q < LOW_PAGES ensures Walk(Do(k, MapFresh(p)).mem, q) == Some(q) {
      assert Walk(k.mem, q) == Some(q);
      StepTranslates(k, MapFresh(p), q);
    }
  }

  lemma LowTables(k: Kernel, p: nat)
    requires Inv(k) && LOW_PAGES <= p < PAGES && k.next + 2 <= LOW_PAGES
    ensures !IsTable(Installed(k.mem, NextAfter(k.next), p).0, p)
  {
    FrameRanges(k, p);
    AfterInstall(k.mem, NextAfter(k.next), p, 0, USER_FLAGS);
  }

  /**
    From the boot tables on, every sequence of fresh mappings of pages at or above
    8 MiB is a run, as long as memory below 8 MiB lasts.
   */
  lemma {:induction false} LowRun(k: Kernel, ops: seq<Op>)
    requires Inv(k) && LowIdentity(k.mem) && MapsHigh(ops) && k.next + 2 * |ops| <= LOW_PAGES
    ensures CanRun(k, ops)
    decreases |ops|
  {
    if ops != [] {
      hide Inv, Possible, Do, LowIdentity;
      assert ops[0] in ops && ops[0] == MapFresh(ops[0].page);
      LowStep(k, ops[0].page);
      DoKeeps(k, ops[0]);
      assert forall op :: op in ops[1..] ==> op in ops;
      LowRun(Do(k, ops[0]), ops[1..]);
    }
  }

  // ----------------------------------------------------- framebuffer mapping

  /** A frame filled with zeros. */
  function Zeroed(m: Memory, f: nat): Memory
    requires |m| == WORDS && f < FRAMES
  {
    m[..Index(f, 0)] + seq(ENTRIES, _ => 0) + m[Index(f + 1, 0)..]
  }

  lemma ZeroedAt(m: Memory, f: nat, g: nat, i: nat)
    requires |m| == WORDS && f < FRAMES && g < FRAMES && i < ENTRIES
    ensures |Zeroed(m, f)| == WORDS && Zeroed(m, f)[Index(g, i)] == if g == f then 0 else m[Index(g, i)]
  {}

  /** One round of the framebuffer loop: page `p` onto frame `p`, in a cleared table if a new one is needed. */
  function MapIdentity(m: Memory, next: nat, p: nat, flags: nat): (Memory, nat)
    requires |m| == WORDS && p < PAGES && flags < PAGE_SIZE
    requires if HasTable(m, p) then FrameOf(DirEntry(m, p / ENTRIES)) < FRAMES else DIRECTORY < next < FRAMES
  {
    if HasTable(m, p) then (WithPage(m, p, p, flags), next)
    else
      ZeroedAt(m, next, DIRECTORY, 0);
      var t := WithTable(Zeroed(m, next), p / ENTRIES, next, KERNEL_FLAGS);
      EntryParts(next, KERNEL_FLAGS);
      (WithPage(t, p, p, flags), next + 1)
  }

  lemma ZeroKeeps(m: Memory, next: nat)
    requires TablesOk(m, next) && next < FRAMES
    ensures var z := Zeroed(m, next);
            && TablesOk(z, next)
            && (forall d :: 0 <= d < ENTRIES ==> DirEntry(z, d) == DirEntry(m, d))
            && (forall q :: 0 <= q < PAGES ==> Walk(z, q) == Walk(m, q))
            && (forall i :: 0 <= i < ENTRIES ==> z[Index(next, i)] == 0)
  {
    var z := Zeroed(m, next);
    ZeroedAt(m, next, 0, 0);
    forall d | 0 <= d < ENTRIES ensures DirEntry(z, d) == DirEntry(m, d) { ZeroedAt(m, next, DIRECTORY, d); }
    forall i | 0 <= i < ENTRIES ensures z[Index(next, i)] == 0 { ZeroedAt(m, next, next, i); }
    hide Zeroed;
    forall q | 0 <= q < PAGES ensures Walk(z, q) == Walk(m, q) {
      var e := DirEntry(m, q / ENTRIES);
      if Present(e) { ZeroedAt(m, next, FrameOf(e), q % ENTRIES); }
    }
  }

  /** The round maps its page onto itself and changes no other page, mapped or not. */
  lemma MapIdentityWalks(m: Memory, next: nat, p: nat, flags: nat)
    requires TablesOk(m, next) && p < PAGES && (HasTable(m, p) || next < FRAMES) && flags < PAGE_SIZE && Present(flags)
    ensures var (w, n) := MapIdentity(m, next, p, flags);
            && TablesOk(w, n) && n == (if HasTable(m, p) then next else next + 1)
            && (forall q :: 0 <= q < PAGES ==> Walk(w, q) == if q == p then Some(p) else Walk(m, q))
            && (forall d :: 0 <= d < ENTRIES ==>
                  (Present(DirEntry(w, d)) <==> Present(DirEntry(m, d)) || d == p / ENTRIES))
            && (forall g :: IsTable(w, g) <==> IsTable(m, g) || (g == next && !HasTable(m, p)))
  {
    if HasTable(m, p) {
      PageWritten(m, next, p, p, flags);
      SameTables(m, WithPage(m, p, p, flags));
    } else {
      var z, d := Zeroed(m, next), p / ENTRIES;
      ZeroKeeps(m, next);
      EntryParts(next, KERNEL_FLAGS);
      LaterFrames(z, next, next);
      var t := WithTable(z, d, next, KERNEL_FLAGS);
      hide Zeroed, Walk;
      TableInstalled(z, next, d, next, next + 1, KERNEL_FLAGS);
      assert forall c :: 0 <= c < ENTRIES && c != d ==> DirEntry(t, c) == DirEntry(z, c);
      assert DirEntry(t, d) == EntryOf(next, KERNEL_FLAGS);
      PageWritten(t, next + 1, p, p, flags);
      SameTables(t, WithPage(t, p, p, flags));
      SameTables(m, z);
    }
  }

  /** Only identity mappings exist, as between boot and the first user page. */
  ghost predicate OnlyIdentity(m: Memory)
    requires |m| == WORDS
  {
    forall q :: 0 <= q < PAGES ==> Walk(m, q) == None || Walk(m, q) == Some(q)
  }

  /** The round needs a new table and its frame's page is not mapped: clearing it faults. */
  predicate RoundFaults(m: Memory, next: nat, p: nat)
    requires |m| == WORDS && p < PAGES && next < PAGES
  {
    !HasTable(m, p) && Walk(m, next).None?
  }

  lemma RoundKeeps(m: Memory, next: nat, p: nat, flags: nat)
    requires TablesOk(m, next) && p < PAGES && (HasTable(m, p) || next < FRAMES) && flags < PAGE_SIZE && Present(flags)
    requires SelfMapped(m) && OnlyIdentity(m) && !RoundFaults(m, next, p)
    ensures var w := MapIdentity(m, next, p, flags).0; |w| == WORDS && SelfMapped(w) && OnlyIdentity(w)
  {
    MapIdentityWalks(m, next, p, flags);
    hide Walk, IsTable, TablesOk, MapIdentity, HasTable;
    var w := MapIdentity(m, next, p, flags).0;
    assert Walk(m, DIRECTORY) == Some(DIRECTORY);
    forall g | 0 <= g < PAGES && IsTable(w, g) ensures Walk(w, g) == Some(g) {
      if IsTable(m, g) { assert Walk(m, g) == Some(g); } else { assert Walk(m, next) == Some(next); }
    }
    forall q | 0 <= q < PAGES ensures Walk(w, q) == None || Walk(w, q) == Some(q) {
      assert Walk(m, q) == None || Walk(m, q) == Some(q);
    }
  }

  /** Whether the table written by the round already was there or has just been cleared, it is in reach. */
  lemma RoundReach(m: Memory, next: nat, p: nat)
    requires TablesOk(m, next) && p < PAGES && SelfMapped(m) && OnlyIdentity(m)
    ensures HasTable(m, p) ==> var g := FrameOf(DirEntry(m, p / ENTRIES)); g < FRAMES && Walk(m, g) == Some(g)
    ensures !HasTable(m, p) && next < FRAMES && Walk(m, next).Some? ==>
              var t := WithTable(Zeroed(m, next), p / ENTRIES, next, KERNEL_FLAGS);
              |t| == WORDS && FrameOf(DirEntry(t, p / ENTRIES)) == next && Walk(t, next) == Some(next)
  {
    EntryParts(next, KERNEL_FLAGS);
    if HasTable(m, p) {
      assert IsTable(m, FrameOf(DirEntry(m, p / ENTRIES)));
    } else if next < FRAMES && Walk(m, next).Some? {
      ZeroKeeps(m, next);
      LaterFrames(Zeroed(m, next), next, next);
      hide Zeroed;
      TableInstalled(Zeroed(m, next), next, p / ENTRIES, next, next + 1, KERNEL_FLAGS);
    }
  }

  /** The round up to its last store: a cleared table is entered in the directory if one is needed. */
  function Cleared(m: Memory, next: nat, p: nat): (r: (Memory, nat))
    requires |m| == WORDS && p < PAGES && (HasTable(m, p) || next < FRAMES)
    ensures |r.0| == WORDS
  {
    if HasTable(m, p) then (m, next)
    else
      ZeroedAt(m, next, 0, 0);
      (WithTable(Zeroed(m, next), p / ENTRIES, next, KERNEL_FLAGS), next + 1)
  }

  /** So the round's last store, through the translation, completes `MapIdentity`. */
  lemma RoundThrough(m: Memory, next: nat, p: nat, flags: nat)
    requires TablesOk(m, next) && p < PAGES && SelfMapped(m) && OnlyIdentity(m) && flags < PAGE_SIZE
    requires HasTable(m, p) || next < FRAMES
    ensures !RoundFaults(m, next, p) ==>
              var t := Cleared(m, next, p).0; var g := FrameOf(DirEntry(t, p / ENTRIES));
              && g < FRAMES && Through(t, g, p % ENTRIES, EntryOf(p, flags)) == Some(MapIdentity(m, next, p, flags).0)
              && MapIdentity(m, next, p, flags).1 == Cleared(m, next, p).1
  {
    RoundReach(m, next, p);
    ZeroedAt(m, if HasTable(m, p) then 0 else next, 0, 0);
    EntryParts(next, KERNEL_FLAGS);
    hide Zeroed, Walk;
  }

  /** Nor does the framebuffer loop open a page, unless its region was open. */
  lemma FramebufferClosed(m: Memory, next: nat, p: nat, flags: nat)
    requires TablesOk(m, next) && p < PAGES && (HasTable(m, p) || next < FRAMES) && flags < PAGE_SIZE && Present(flags)
    requires HasTable(m, p) ==> !UserBits(DirEntry(m, p / ENTRIES))
    ensures var w := MapIdentity(m, next, p, flags).0; |w| == WORDS && !UserAccess(w, p)
  {
    if HasTable(m, p) {
      PageEntry(m, next, p, p, flags);
    } else {
      ZeroKeeps(m, next);
      EntryParts(next, KERNEL_FLAGS);
      EntryBits(next, KERNEL_FLAGS);
      LaterFrames(Zeroed(m, next), next, next);
      hide Zeroed, Walk;
      TableInstalled(Zeroed(m, next), next, p / ENTRIES, next, next + 1, KERNEL_FLAGS);
      PageEntry(WithTable(Zeroed(m, next), p / ENTRIES, next, KERNEL_FLAGS), next + 1, p, p, flags);
    }
  }

  /** The pages `lo..hi` translate to themselves in `w`, and every other page as it did in `m`. */
  ghost predicate MappedOver(m: Memory, w: Memory, lo: nat, hi: nat)
    requires |m| == |w| == WORDS
  {
    forall q :: 0 <= q < PAGES ==> Walk(w, q) == if lo <= q < hi then Some(q) else Walk(m, q)
  }

  /** The directory slots that mapping the pages `lo..hi` would have to fill. */
  ghost function Missing(m: Memory, lo: nat, hi: nat): set<nat>
    requires |m| == WORDS
  {
    set d | 0 <= d < ENTRIES && lo < hi && lo / ENTRIES <= d <= (hi - 1) / ENTRIES && !Present(DirEntry(m, d))
  }

  lemma MissingShrinks(m: Memory, w: Memory, lo: nat, hi: nat)
    requires |m| == |w| == WORDS && lo < hi <= PAGES
    requires forall d :: 0 <= d < ENTRIES ==>
                           (Present(DirEntry(w, d)) <==> Present(DirEntry(m, d)) || d == lo / ENTRIES)
    ensures |Missing(w, lo + 1, hi)| + (if HasTable(m, lo) then 0 else 1) <= |Missing(m, lo, hi)|
  {
    var a, b := Missing(m, lo, hi), Missing(w, lo + 1, hi);
    if !HasTable(m, lo) { assert lo / ENTRIES in a; }
    assert b <= a - {lo / ENTRIES};
    assert a == b + (a - b);
    if !HasTable(m, lo) { assert lo / ENTRIES in a - b; }
  }

  lemma NeedsFrame(m: Memory, p: nat, hi: nat)
    requires |m| == WORDS && p < hi <= PAGES && !HasTable(m, p)
    ensures |Missing(m, p, hi)| > 0
  {
    assert p / ENTRIES in Missing(m, p, hi);
  }

  /** A round without a fault keeps what the loop needs, and uses at most one of the frames still needed. */
  lemma RoundFacts(m: Memory, next: nat, p: nat, flags: nat, hi: nat, budget: nat)
    requires TablesOk(m, next) && SelfMapped(m) && OnlyIdentity(m) && p < hi <= PAGES
    requires next + |Missing(m, p, hi)| <= budget <= FRAMES && flags < PAGE_SIZE && Present(flags)
    ensures HasTable(m, p) || (next < budget && TablesOk(m, next + 1))
    ensures !RoundFaults(m, next, p) ==>
              var (w, n) := MapIdentity(m, next, p, flags);
              && TablesOk(w, n) && SelfMapped(w) && OnlyIdentity(w) && n + |Missing(w, p + 1, hi)| <= budget
              && forall q :: 0 <= q < PAGES ==> Walk(w, q) == if q == p then Some(q) else Walk(m, q)
  {
    hide SelfMapped, OnlyIdentity, Walk, Missing, Present;
    if !HasTable(m, p) {
      NeedsFrame(m, p, hi);
      LaterFrames(m, next, next + 1);
    }
    hide TablesOk, MapIdentity;
    if !RoundFaults(m, next, p) {
      MapIdentityWalks(m, next, p, flags);
      RoundKeeps(m, next, p, flags);
      MissingShrinks(m, MapIdentity(m, next, p, flags).0, p, hi);
    }
  }

  /** `(x + 0xFFF) & ~0xFFF`. */
  function PageAlign(x: nat): (r: nat)
    ensures r % PAGE_SIZE == 0 && x <= r < x + PAGE_SIZE
  {
    (x + 0xFFF) / 4096 * 4096
  }

  /** Bits 0 to 11 of `x | mask`, for a mask of low ones. */
  function LowBits(x: nat, mask: nat): nat
    requires mask == USER_FLAGS || mask == KERNEL_FLAGS
  {
    x % PAGE_SIZE / (mask + 1) * (mask + 1) + mask
  }

  lemma LowBitsParts(x: nat, mask: nat)
    requires mask == USER_FLAGS || mask == KERNEL_FLAGS
    ensures LowBits(x, mask) < PAGE_SIZE && Present(LowBits(x, mask))
    ensures mask == USER_FLAGS ==> UserBits(LowBits(x, mask))
    ensures EntryOf(x / PAGE_SIZE, LowBits(x, mask)) == x / (mask + 1) * (mask + 1) + mask
  {
    var q, r := x / PAGE_SIZE, x % PAGE_SIZE;
    assert x == PAGE_SIZE * q + r;
    if mask == USER_FLAGS {
      assert x == 8 * (512 * q) + r && x / 8 == 512 * q + r / 8;
      assert LowBits(x, mask) == 2 * (r / 8 * 4 + 3) + 1 == 8 * (r / 8) + 7;
    } else {
      assert x == 4 * (1024 * q) + r && x / 4 == 1024 * q + r / 4;
      assert LowBits(x, mask) == 2 * (r / 4 * 2 + 1) + 1;
    }
  }

  /** The page after the last one that mapping `size` bytes from `base` on in steps of a page reaches. */
  function PagesEnd(base: nat, size: nat): nat {
    base / PAGE_SIZE + (size + 0xFFF) / PAGE_SIZE
  }

  /** Step `k` of such a loop is at page `k` of the range, and past it exactly when the bytes are used up. */
  lemma PagesAt(base: nat, size: nat, k: nat)
    ensures (base + k * PAGE_SIZE) / PAGE_SIZE == base / PAGE_SIZE + k
    ensures k * PAGE_SIZE < size <==> base / PAGE_SIZE + k < PagesEnd(base, size)
    ensures base / PAGE_SIZE <= PagesEnd(base, size)
    ensures base + size <= PAGES * PAGE_SIZE ==> PagesEnd(base, size) <= PAGES
  {}

  /**
    The finished loop maps the page of the last byte if the base's offset leaves
    room for it in the last step; otherwise that page stays as it was.
   */
  lemma LastByteMapped(m: Memory, w: Memory, base: nat, size: nat)
    requires |m| == |w| == WORDS && size > 0 && base + size <= PAGES * PAGE_SIZE
    requires MappedOver(m, w, base / PAGE_SIZE, PagesEnd(base, size))
    ensures var last := (base + size - 1) / PAGE_SIZE;
            Walk(w, last) == if base % PAGE_SIZE + (size - 1) % PAGE_SIZE < PAGE_SIZE then Some(last) else Walk(m, last)
  {
    LastPage(base, size);
  }

  lemma LastPage(base: nat, size: nat)
    requires size > 0
    ensures base / PAGE_SIZE <= (base + size - 1) / PAGE_SIZE
    ensures (base + size - 1) / PAGE_SIZE < PagesEnd(base, size)
            <==> base % PAGE_SIZE + (size - 1) % PAGE_SIZE < PAGE_SIZE
  {}

  /** A page-sized framebuffer that begins one byte into a page: its last byte stays unmapped. */
  lemma LastByteMissed(m: Memory, w: Memory)
    requires Initialised(m) && |w| == WORDS
    requires MappedOver(m, w, 0xE000_0001 / PAGE_SIZE, PagesEnd(0xE000_0001, PAGE_SIZE))
    ensures Walk(w, (0xE000_0001 + PAGE_SIZE - 1) / PAGE_SIZE) == None
  {
    InitialWalks(m, FRAMES);
    LastByteMapped(m, w, 0xE000_0001, PAGE_SIZE);
  }

  class KernelPaging {
    const mem: array<nat>
    var nextFree: nat   // next_free_page, an address

    ghost predicate Valid()
      reads this, mem
    {
      mem.Length == WORDS && nextFree % PAGE_SIZE == 0 && TablesOk(mem[..], nextFree / PAGE_SIZE)
    }

    /** `paging_alloc_init` and `init_paging`, for a kernel image that ends at `kernelEnd`. */
    constructor (mem: array<nat>, kernelEnd: nat)
      requires mem.Length == WORDS && KERNEL_BASE * PAGE_SIZE <= kernelEnd <= FRAMES * PAGE_SIZE
      modifies mem
      ensures this.mem == mem && Valid() && Initialised(mem[..])
      ensures SelfMapped(mem[..]) && OnlyIdentity(mem[..]) && LowIdentity(mem[..])
      ensures kernelEnd <= nextFree < kernelEnd + PAGE_SIZE
    {
      this.mem := mem;
      nextFree := PageAlign(kernelEnd);
      new;
      var i := 0;
      while i < ENTRIES
        invariant 0 <= i <= ENTRIES && nextFree == PageAlign(kernelEnd)
        invariant forall d :: 0 <= d < i ==> mem[Index(DIRECTORY, d)] == 0
        invariant forall d :: 0 <= d < i ==> mem[Index(KERNEL_TABLE, d)] == EntryOf(d, KERNEL_FLAGS)
        invariant forall d :: 0 <= d < i ==> mem[Index(KERNEL_TABLE2, d)] == EntryOf(ENTRIES + d, KERNEL_FLAGS)
      {
        mem[Index(DIRECTORY, i)] := 0;
        mem[Index(KERNEL_TABLE, i)] := EntryOf(i, KERNEL_FLAGS);
        mem[Index(KERNEL_TABLE2, i)] := EntryOf(ENTRIES + i, KERNEL_FLAGS);
        i := i + 1;
      }
      mem[Index(DIRECTORY, 0)] := EntryOf(KERNEL_TABLE, KERNEL_FLAGS);
      mem[Index(DIRECTORY, 1)] := EntryOf(KERNEL_TABLE2, KERNEL_FLAGS);
      InitialWalks(mem[..], nextFree / PAGE_SIZE);
    }

    /** `alloc_page_frame`: an address, or 0 when physical memory is used up. */
    method AllocFrame() returns (addr: nat)
      requires nextFree % PAGE_SIZE == 0
      modifies this`nextFree
      ensures if old(nextFree) >= 0x800_0000 then addr == 0 && nextFree == old(nextFree)
              else addr == old(nextFree) && nextFree == old(nextFree) + PAGE_SIZE
    {
      if nextFree >= FRAMES * PAGE_SIZE {
        return 0;
      }
      addr := nextFree;
      nextFree := nextFree + PAGE_SIZE;
    }

    /** A store to word `i` of the virtual page `q`; `ok` is false on a page fault. */
    method Poke(q: nat, i: nat, x: nat) returns (ok: bool)
      requires mem.Length == WORDS && q < PAGES && i < ENTRIES
      modifies mem
      ensures match Through(old(mem[..]), q, i, x)
              case None => !ok && mem[..] == old(mem[..])
              case Some(w) => ok && mem[..] == w
    {
      var e := mem[Index(DIRECTORY, q / ENTRIES)];
      if e % 2 == 0 || e / PAGE_SIZE >= FRAMES {
        return false;
      }
      var t := mem[Index(e / PAGE_SIZE, q % ENTRIES)];
      if t % 2 == 0 {
        return false;
      }
      if t / PAGE_SIZE < FRAMES {
        mem[Index(t / PAGE_SIZE, i)] := x;
      }
      ok := true;
    }

    /** `map_user_page` with the directory's page mapped to itself; `ok` is false on a page fault. */
    method MapUserPage(virt: nat, phys: nat) returns (ok: bool)
      requires Valid() && Walk(mem[..], DIRECTORY) == Some(DIRECTORY) && virt < PAGES * PAGE_SIZE
      modifies this`nextFree, mem
      ensures nextFree % PAGE_SIZE == 0
      ensures var m, next, p := old(mem[..]), old(nextFree) / PAGE_SIZE, virt / PAGE_SIZE;
              match MapUserThrough(m, next, p, phys / PAGE_SIZE, LowBits(phys, USER_FLAGS))
              case None => !ok && (mem[..], nextFree / PAGE_SIZE) == Installed(m, next, p)
              case Some(r) => ok && (mem[..], nextFree / PAGE_SIZE) == r
    {
      ghost var m, next, p := mem[..], nextFree / PAGE_SIZE, virt / PAGE_SIZE;
      LowBitsParts(phys, USER_FLAGS);
      TableFrameIs(m, next, p);
      assert HasTable(m, p) ==> FrameOf(DirEntry(m, p / ENTRIES)) < FRAMES;
      assert KERNEL_BASE <= next <= FRAMES;
      hide TablesOk, Walk, LowBits;
      var dirIdx, tableIdx := virt / 0x40_0000, virt / PAGE_SIZE % ENTRIES;
      assert dirIdx == p / ENTRIES;
      if mem[Index(DIRECTORY, dirIdx)] % 2 == 0 {
        var newTable := AllocFrame();
        mem[Index(DIRECTORY, dirIdx)] := newTable + USER_FLAGS;
      }
      assert (mem[..], nextFree / PAGE_SIZE) == Installed(m, next, p);
      hide Installed, Through;
      var table := mem[Index(DIRECTORY, dirIdx)] / PAGE_SIZE;
      ok := Poke(table, tableIdx, phys / 8 * 8 + USER_FLAGS);
    }

    /** Clearing a new table through its own address, the inner loop of the framebuffer mapping. */
    method ZeroFrame(f: nat) returns (ok: bool)
      requires mem.Length == WORDS && f < FRAMES && TablesOk(mem[..], f)
      requires Walk(mem[..], f) == None || Walk(mem[..], f) == Some(f)
      modifies mem
      ensures ok <==> Walk(old(mem[..]), f).Some?
      ensures mem[..] == if ok then Zeroed(old(mem[..]), f) else old(mem[..])
    {
      ghost var m := mem[..];
      LaterFrames(m, f, f);
      hide TablesOk, Walk, IsTable;
      var i := 0;
      ok := true;
      while i < ENTRIES
        invariant 0 <= i <= ENTRIES && TablesOk(mem[..], f) && !IsTable(mem[..], f)
        invariant Walk(mem[..], f) == Walk(m, f) && (i > 0 ==> Walk(m, f).Some?)
        invariant forall x :: 0 <= x < WORDS ==> mem[x] == if Index(f, 0) <= x < Index(f, i) then 0 else m[x]
      {
        ghost var now := mem[..];
        FreeOfTables(now, f);
        StoreKeeps(now, f, f, i, 0);
        ok := Poke(f, i, 0);
        if !ok {
          return;
        }
        assert mem[..] == now[Index(f, i) := 0];
        i := i + 1;
      }
    }

    lemma FreeOfTables(m: Memory, f: nat)
      requires TablesOk(m, f)
      ensures f != DIRECTORY
    {}

    /** One round of the framebuffer loop. */
    method MapFramebufferPage(addr: nat) returns (ok: bool)
      requires Valid() && addr < PAGES * PAGE_SIZE && SelfMapped(mem[..]) && OnlyIdentity(mem[..])
      requires HasTable(mem[..], addr / PAGE_SIZE) || nextFree < FRAMES * PAGE_SIZE
      modifies this`nextFree, mem
      ensures var m, next, p := old(mem[..]), old(nextFree) / PAGE_SIZE, addr / PAGE_SIZE;
              && nextFree % PAGE_SIZE == 0 && (ok <==> !RoundFaults(m, next, p))
              && (mem[..], nextFree / PAGE_SIZE) == if ok then MapIdentity(m, next, p, LowBits(addr, KERNEL_FLAGS))
                                                    else (m, next + 1)
    {
      hide TablesOk, Walk, Zeroed, LowBits, SelfMapped, OnlyIdentity, Through, MapIdentity, Cleared;
      ghost var m, next, p := mem[..], nextFree / PAGE_SIZE, addr / PAGE_SIZE;
      LowBitsParts(addr, KERNEL_FLAGS);
      RoundThrough(m, next, p, LowBits(addr, KERNEL_FLAGS));
      var dirIdx, tblIdx := addr / 0x40_0000, addr / PAGE_SIZE % ENTRIES;
      ok := EnsureTable(dirIdx, p);
      if ok {
        var table := mem[Index(DIRECTORY, dirIdx)] / PAGE_SIZE;
        ok := Poke(table, tblIdx, addr / 4 * 4 + KERNEL_FLAGS);
      }
    }

    /** The `if` of the loop: a new table where there is none. */
    method EnsureTable(d: nat, ghost p: nat) returns (ok: bool)
      requires Valid() && OnlyIdentity(mem[..]) && p < PAGES && d == p / ENTRIES
      requires HasTable(mem[..], p) || nextFree < FRAMES * PAGE_SIZE
      modifies this`nextFree, mem
      ensures var m, next := old(mem[..]), old(nextFree) / PAGE_SIZE;
              && nextFree % PAGE_SIZE == 0 && (ok <==> !RoundFaults(m, next, p))
              && (mem[..], nextFree / PAGE_SIZE) == if ok then Cleared(m, next, p) else (m, next + 1)
    {
      hide TablesOk, Walk, Zeroed, OnlyIdentity, WithTable;
      NextWalks(mem[..], nextFree / PAGE_SIZE);
      ok := true;
      if mem[Index(DIRECTORY, d)] % 2 == 0 {
        ok := AddClearedTable(d);
      }
    }

    lemma NextWalks(m: Memory, next: nat)
      requires TablesOk(m, next) && OnlyIdentity(m)
      ensures Walk(m, next) == None || Walk(m, next) == Some(next)
    {}

    /** A new, cleared table for directory slot `d`. */
    method AddClearedTable(d: nat) returns (ok: bool)
      requires Valid() && d < ENTRIES && nextFree < FRAMES * PAGE_SIZE
      requires var next := nextFree / PAGE_SIZE; Walk(mem[..], next) == None || Walk(mem[..], next) == Some(next)
      modifies this`nextFree, mem
      ensures nextFree == old(nextFree) + PAGE_SIZE
      ensures ok <==> Walk(old(mem[..]), old(nextFree) / PAGE_SIZE).Some?
      ensures var m, next := old(mem[..]), old(nextFree) / PAGE_SIZE;
              mem[..] == if ok then WithTable(Zeroed(m, next), d, next, KERNEL_FLAGS) else m
    {
      hide Zeroed, Walk;
      ghost var m, next := mem[..], nextFree / PAGE_SIZE;
      var newTable := AllocFrame();
      ok := ZeroFrame(newTable / PAGE_SIZE);
      if ok {
        ZeroedAt(m, next, DIRECTORY, d);
        mem[Index(DIRECTORY, d)] := newTable + KERNEL_FLAGS;
      }
    }

    /** A round uses at most one of the frames that are still needed. */
    method FramebufferRound(addr: nat, ghost hi: nat, ghost budget: nat) returns (ok: bool)
      requires Valid() && SelfMapped(mem[..]) && OnlyIdentity(mem[..]) && addr / PAGE_SIZE < hi <= PAGES
      requires nextFree / PAGE_SIZE + |Missing(mem[..], addr / PAGE_SIZE, hi)| <= budget <= FRAMES
      modifies this`nextFree, mem
      ensures Valid()
      ensures ok ==> SelfMapped(mem[..]) && OnlyIdentity(mem[..])
                     && nextFree / PAGE_SIZE + |Missing(mem[..], addr / PAGE_SIZE + 1, hi)| <= budget
                     && forall q :: 0 <= q < PAGES ==>
                          Walk(mem[..], q) == if q == addr / PAGE_SIZE then Some(q) else Walk(old(mem[..]), q)
      ensures !ok ==> mem[..] == old(mem[..]) && nextFree == old(nextFree) + PAGE_SIZE
                      && old(nextFree) / PAGE_SIZE < budget
                      && RoundFaults(mem[..], old(nextFree) / PAGE_SIZE, addr / PAGE_SIZE)
    {
      hide TablesOk, Walk, MapIdentity, Missing, Present, LowBits, SelfMapped, OnlyIdentity, RoundFaults, HasTable;
      ghost var w, next, p := mem[..], nextFree / PAGE_SIZE, addr / PAGE_SIZE;
      LowBitsParts(addr, KERNEL_FLAGS);
      RoundFacts(w, next, p, LowBits(addr, KERNEL_FLAGS), hi, budget);
      RoundNeeds(w, next, p);
      FramesLeft();
      ok := MapFramebufferPage(addr);
    }

    lemma RoundNeeds(m: Memory, next: nat, p: nat)
      requires |m| == WORDS && p < PAGES && next < PAGES
      ensures RoundFaults(m, next, p) ==> !HasTable(m, p)
    {}

    /**
      The framebuffer loop of `kernel_main`: the first `done` pages from the base's
      page on translate to themselves; every other page is as it was, mapped or not.
      The loop falls short of the pages the size asks for only by a page fault, when
      the frame of a new table is not mapped; below 8 MiB that never happens.
     */
    method MapFramebuffer(base: nat, size: nat) returns (done: nat)
      requires Valid() && SelfMapped(mem[..]) && OnlyIdentity(mem[..])
      requires base + size <= PAGES * PAGE_SIZE && size <= 0xFFFF_F000
      requires nextFree / PAGE_SIZE + |Missing(mem[..], base / PAGE_SIZE, PagesEnd(base, size))| <= FRAMES
      modifies this`nextFree, mem
      ensures Valid() && base / PAGE_SIZE + done <= PagesEnd(base, size) <= PAGES
      ensures MappedOver(old(mem[..]), mem[..], base / PAGE_SIZE, base / PAGE_SIZE + done)
      ensures base / PAGE_SIZE + done < PagesEnd(base, size) ==>
                nextFree >= PAGE_SIZE && RoundFaults(mem[..], nextFree / PAGE_SIZE - 1, base / PAGE_SIZE + done)
      ensures LowIdentity(old(mem[..]))
              && old(nextFree / PAGE_SIZE + |Missing(mem[..], base / PAGE_SIZE, PagesEnd(base, size))|) <= LOW_PAGES ==>
                base / PAGE_SIZE + done == PagesEnd(base, size)
    {
      hide TablesOk, Walk, Missing, PagesEnd, SelfMapped, OnlyIdentity, MappedOver;
      ghost var m, lo, hi := mem[..], base / PAGE_SIZE, PagesEnd(base, size);
      ghost var budget := nextFree / PAGE_SIZE + |Missing(m, lo, hi)|;
      var off := 0;
      done := 0;
      PagesAt(base, size, 0);
      NothingMapped(m, lo);
      while off < size
        invariant off == done * PAGE_SIZE && lo + done <= hi <= PAGES && (off >= size ==> lo + done == hi)
        invariant Valid() && SelfMapped(mem[..]) && OnlyIdentity(mem[..])
        invariant nextFree / PAGE_SIZE + |Missing(mem[..], lo + done, hi)| <= budget
        invariant MappedOver(m, mem[..], lo, lo + done)
        decreases size - off
      {
        PagesAt(base, size, done);
        ghost var w, next := mem[..], nextFree / PAGE_SIZE;
        var ok := FramebufferRound(base + off, hi, budget);
        if !ok {
          if LowIdentity(m) && budget <= LOW_PAGES { LowKept(m, w, lo, lo + done, next); }
          return;
        }
        OneMoreMapped(m, w, mem[..], lo, lo + done);
        off := off + PAGE_SIZE;
        done := done + 1;
        PagesAt(base, size, done);
      }
    }

    lemma NothingMapped(m: Memory, lo: nat)
      requires |m| == WORDS
      ensures MappedOver(m, m, lo, lo)
    {}

    lemma OneMoreMapped(m: Memory, w: Memory, x: Memory, lo: nat, p: nat)
      requires |m| == |w| == |x| == WORDS && lo <= p && MappedOver(m, w, lo, p)
      requires forall q :: 0 <= q < PAGES ==> Walk(x, q) == if q == p then Some(q) else Walk(w, q)
      ensures MappedOver(m, x, lo, p + 1)
    {
      hide Walk;
    }

    /** A page below 8 MiB is still mapped on the way. */
    lemma LowKept(m: Memory, w: Memory, lo: nat, p: nat, q: nat)
      requires |m| == |w| == WORDS && LowIdentity(m) && MappedOver(m, w, lo, p) && q < LOW_PAGES
      ensures Walk(w, q).Some?
    {
      hide Walk;
      assert Walk(m, q) == Some(q);
    }

    lemma FramesLeft()
      requires Valid()
      ensures nextFree / PAGE_SIZE < FRAMES ==> nextFree < FRAMES * PAGE_SIZE
      ensures TablesOk(mem[..], nextFree / PAGE_SIZE)
    {}
  }
}
