/** The boot-time carve-up of memory and the adoption of the kernel's own page tables. */
module Boot {
  import opened Words
  import opened PhysicalMemory
  import opened FrameAllocator
  import opened PageTables
  import opened PagingManager
  import opened PagingProofs
  import opened Translation
  import opened KernelTables

  /** The image window, in bytes: executables are mapped there over the identity map. */
  const WINDOW_START: nat := 0x4000_0000
  const WINDOW_END: nat := 0x4400_0000

  datatype Carve = Carve(heapStart: Word, heapSize: Word, poolStart: Word, poolSize: Word, mapLimit: Word)

  /** The part of the handover region kept: all of it, or the larger side of the window. */
  function KeptRegion(base: Word, size: Word): (Word, Word) {
    var end := Add64(base, size);
    if base < 0x4400_0000 && end > 0x4000_0000 then
      var below: Word := if base < 0x4000_0000 then 0x4000_0000 - base else 0;
      var above: Word := if end > 0x4400_0000 then end - 0x4400_0000 else 0;
      if below >= above then (base, below) else (0x4400_0000, above)
    else (base, size)
  }

  /** The region arithmetic of hal_init_platform. */
  function CarveUp(base: Word, size: Word): Carve {
    var (start, kept) := KeptRegion(base, size);
    var usable := kept / 2;
    var ramEnd := Add64(base, size);
    var rounded := Add64(ramEnd, 0x3FFF_FFFF);
    var limit: Word := if ramEnd > 0x1_0000_0000 then rounded - rounded % 0x4000_0000 else 0x1_0000_0000;
    Carve(start, usable, Add64(start, usable), kept - usable, limit)
  }

  /** Overlap of [a, a + m) and [b, b + n). */
  predicate Overlap(a: nat, m: nat, b: nat, n: nat) {
    m > 0 && n > 0 && a < b + n && b < a + m
  }

  /** For every handover region: heap, pool and window are pairwise disjoint, heap and pool fill the larger side of the
      region that the window leaves, the lower one when they are equal, and the identity map reaches past both, to the
      next GiB and to 4 GiB at least.  The region may end anywhere below the topmost GiB of the address range; a limit
      past 2^47 needs a region that ends past it. */
  lemma CarveSpec(base: Word, size: Word)
    requires base + size <= 0xFFFF_FFFF_C000_0000
    ensures var c := CarveUp(base, size);
      && !Overlap(c.heapStart, c.heapSize, c.poolStart, c.poolSize)
      && !Overlap(c.heapStart, c.heapSize, WINDOW_START, WINDOW_END - WINDOW_START)
      && !Overlap(c.poolStart, c.poolSize, WINDOW_START, WINDOW_END - WINDOW_START)
      && (c.heapSize + c.poolSize > 0 ==> base <= c.heapStart && c.poolStart + c.poolSize <= base + size)
      && c.heapStart + c.heapSize == c.poolStart
      && c.heapSize <= c.poolSize <= c.heapSize + 1
      && c.heapSize + c.poolSize == KeptBytes(base, size)
      && c.heapStart == KeptStart(base, size)
      && base + size <= c.mapLimit && (c.mapLimit <= 0x8000_0000_0000 <==> base + size <= 0x8000_0000_0000)
      && 0x1_0000_0000 <= c.mapLimit && c.mapLimit % 0x4000_0000 == 0
      && (c.mapLimit > 0x1_0000_0000 ==> c.mapLimit < base + size + 0x4000_0000)
  {
    LimitSpec(base, size);
    KeptSpec(base, size);
    var (start, kept) := KeptRegion(base, size);
    assert Add64(start, kept / 2) == start + kept / 2;
    hide KeptRegion, KeptBytes, KeptStart;
  }

  /** Bytes of the region outside the window, on its larger side. */
  function KeptBytes(base: nat, size: nat): nat {
    if !(base < WINDOW_END && base + size > WINDOW_START) then size
    else
      var below := if base < WINDOW_START then WINDOW_START - base else 0;
      var above := if base + size > WINDOW_END then base + size - WINDOW_END else 0;
      if below >= above then below else above
  }

  /** Where the part kept starts: behind the window only when that side is the larger one. */
  function KeptStart(base: nat, size: nat): nat {
    if base < WINDOW_END && base + size > WINDOW_START
       && base + size - WINDOW_END > (if base < WINDOW_START then WINDOW_START - base else 0)
    then WINDOW_END
    else base
  }

  lemma KeptSpec(base: Word, size: Word)
    requires base + size <= 0xFFFF_FFFF_C000_0000
    ensures var (start, kept) := KeptRegion(base, size);
      && kept == KeptBytes(base, size) && start == KeptStart(base, size)
      && start + kept <= (if base + size < 0x4400_0000 then 0x4400_0000 else base + size)
      && (kept > 0 ==> base <= start && start + kept <= base + size)
      && (kept > 0 ==> start + kept <= WINDOW_START || start >= WINDOW_END)
  {
    assert Add64(base, size) == base + size;
  }

  lemma LimitSpec(base: Word, size: Word)
    requires base + size <= 0xFFFF_FFFF_C000_0000
    ensures var limit := CarveUp(base, size).mapLimit;
      && base + size <= limit && (limit <= 0x8000_0000_0000 <==> base + size <= 0x8000_0000_0000)
      && 0x1_0000_0000 <= limit && limit % 0x4000_0000 == 0
      && (limit > 0x1_0000_0000 ==> limit < base + size + 0x4000_0000)
  {
    hide KeptRegion;
    var e := base + size;
    assert Add64(base, size) == e && Add64(e, 0x3FFF_FFFF) == e + 0x3FFF_FFFF;
    var q := (e + 0x3FFF_FFFF) / 0x4000_0000;
    Euclid(e + 0x3FFF_FFFF, 0x4000_0000);
    if e > 0x1_0000_0000 {
      DivIs(q * 0x4000_0000, 0x4000_0000, q, 0);
      assert e <= 0x8000_0000_0000 <==> q <= 0x2_0000;
    }
  }

  // ---------------------------------------------------------------- the running kernel

  /** A page the kernel relies on to be identity mapped: below the limit and outside the window. */
  predicate Kept(p: Path, limit: Word) {
    FirstPage(p) < limit / 0x1000 && !(0x4_0000 <= FirstPage(p) < 0x4_4000)
  }

  /** The invariant of the running kernel: its tables are sound, its frames lie below the limit and outside the window,
      the processor accepts every address below the limit, and every page below the limit and outside the window still
      translates to itself, for the kernel only. */
  ghost predicate Running(s: Hal, cr3: Word, limit: Word) {
    && cr3 / 0x1000 != 0 && cr3 % 0x1000 == 0
    && Sound(s, cr3 / 0x1000)
    && s.end <= limit <= 0x8000_0000_0000
    && (s.end <= 0x4000_0000 || s.base >= 0x4400_0000)
    && IdentityKept(s.mem, cr3 / 0x1000, limit)
  }

  ghost predicate IdentityKept(m: Memory, root: nat, limit: Word) {
    forall p :: Depth(p) == 4 && Kept(p, limit) ==> Resolve(m, root, p) == IdentityLeaf(p)
  }

  /** Every address below the limit outside the window is accepted and translates to itself. */
  lemma IdentityAddresses(s: Hal, cr3: Word, limit: Word, a: Word)
    requires Running(s, cr3, limit) && limit % 0x1000 == 0
    requires a < limit && !(WINDOW_START <= a < WINDOW_END)
    ensures Canonical(a) && GetPageAddr(s.mem, cr3, a) == a
  {
    PathOfPage(a);
    Euclid(a, 0x1000);
    DivIs(a / 0x1000, 0x10_0000_0000, 0, a / 0x1000);
    assert Kept(PathOf(a), limit);
    GetPageAddrSpec(s, cr3, a);
    hide Sound, GetPageAddr, Resolve, PathOf, FirstPage;
  }

  /** Reaching a table, a free frame or a frame in use by its physical address reaches that frame: no frame of the pool
      lies in the window, and each byte of the pool is accepted and translates to itself. */
  lemma PoolReachable(s: Hal, cr3: Word, limit: Word, a: Word)
    requires Running(s, cr3, limit) && limit % 0x1000 == 0
    requires s.base <= a < s.end
    ensures !(WINDOW_START <= a < WINDOW_END) && Canonical(a) && GetPageAddr(s.mem, cr3, a) == a
  {
    hide Sound, GetPageAddr, IdentityKept;
    IdentityAddresses(s, cr3, limit, a);
  }

  /** Every table frame is a frame of the pool. */
  lemma TablesInPool(s: Hal, cr3: Word, limit: Word, f: nat)
    requires Running(s, cr3, limit) && f in Tables(s.mem, cr3 / 0x1000)
    ensures s.base <= f * 0x1000 && (f + 1) * 0x1000 <= s.end
  {
    TablesUsed(s, cr3 / 0x1000);
    UsedBounds(s);
    hide PmmOk, Used, TreeOk, Tables, LeafCarriesPolicy, IdentityKept;
    Euclid(s.end, 0x1000);
  }

  /** A step keeps the kernel running exactly when the pages it changed that the kernel relies on still show their own
      frames. */
  lemma EvolvesRuns(s: Hal, s': Hal, cr3: Word, limit: Word, pages: set<Path>, held: set<nat>)
    requires Running(s, cr3, limit) && Evolves(s, s', cr3 / 0x1000, pages, held)
    ensures Running(s', cr3, limit) <==>
      forall p :: p in pages && Depth(p) == 4 && Kept(p, limit) ==> Resolve(s'.mem, cr3 / 0x1000, p) == IdentityLeaf(p)
  {
    EvolvesSound(s, s', cr3 / 0x1000, pages, held);
    hide Evolves, Sound, Resolve, FirstPage, Kept, IdentityLeaf;
  }

  // ---------------------------------------------------------------- start-up

  /** Memory set-up of hal_init_platform: the state and the new cr3, 0 when the tables could not be built. */
  function SetUp(mem: Memory, base: Word, size: Word): (Hal, Word)
    requires base + size <= 0xFFFF_FFFF_C000_0000
  {
    LimitSpec(base, size);
    Adopt(mem, CarveUp(base, size))
  }

  /** The pool and the tables for a carve-up. */
  function Adopt(mem: Memory, c: Carve): (Hal, Word)
    requires c.mapLimit <= 0xFFFF_FFFF_C000_0000
  {
    InitKernelTables(Init(Reset(mem), c.poolStart, c.poolSize), c.mapLimit)
  }

  /** For every handover region that ends at 2^47 at most, set-up succeeds exactly when the pool has the frames the
      identity map needs, and then the kernel's invariant holds and the tables are the only frames in use.  When set-up
      succeeds at all, every address below the limit is accepted and translates to itself exactly for these regions. */
  lemma SetUpSpec(mem: Memory, base: Word, size: Word)
    requires base + size <= |mem| * 0x1000 <= 0x10_0000_0000_0000
    ensures var c := CarveUp(base, size);
      var (s, cr3) := SetUp(mem, base, size);
      && (base + size <= 0x8000_0000_0000 ==>
            && (cr3 != 0 <==> WholeFrames(c.poolStart, c.poolSize) >= Needed(GiBs(c.mapLimit)))
            && (cr3 != 0 ==> Running(s, cr3, c.mapLimit) && Used(s) == Tables(s.mem, cr3 / 0x1000)
                             && s.used == Needed(GiBs(c.mapLimit))))
      && (cr3 != 0 ==>
            ((forall a: Word :: a < c.mapLimit ==> Canonical(a) && GetPageAddr(s.mem, cr3, a) == a)
             <==> base + size <= 0x8000_0000_0000))
  {
    var c := CarveUp(base, size);
    CarveSpec(base, size);
    hide CarveUp, Init, Used, Tables, InitKernelTables, Sound, PmmOk, Needed, Overlap, WholeFrames, GetPageAddr;
    assert !Canonical(0x8000_0000_0000);
    if base + size <= 0x8000_0000_0000 {
      SetUpRuns(mem, base, size);
      var (s, cr3) := SetUp(mem, base, size);
      if cr3 != 0 {
        forall a: Word | a < c.mapLimit
          ensures Canonical(a) && GetPageAddr(s.mem, cr3, a) == a
        {
          MappedToItself(s, cr3, c.mapLimit, a);
        }
      }
    }
  }

  lemma SetUpRuns(mem: Memory, base: Word, size: Word)
    requires base + size <= 0x8000_0000_0000 && base + size <= |mem| * 0x1000 <= 0x10_0000_0000_0000
    ensures var c := CarveUp(base, size);
      var (s, cr3) := SetUp(mem, base, size);
      && (cr3 != 0 <==> WholeFrames(c.poolStart, c.poolSize) >= Needed(GiBs(c.mapLimit)))
      && (cr3 != 0 ==> Running(s, cr3, c.mapLimit) && Used(s) == Tables(s.mem, cr3 / 0x1000)
                       && s.used == Needed(GiBs(c.mapLimit)))
      && (cr3 != 0 ==> Sound(s, cr3 / 0x1000) && IdentityMap(s.mem, cr3 / 0x1000, GiBs(c.mapLimit) * 0x4_0000))
  {
    var c := CarveUp(base, size);
    CarveSpec(base, size);
    var s0 := Init(Reset(mem), c.poolStart, c.poolSize);
    PoolFits(mem, base, size);
    InitKernelTablesSpec(s0, c.mapLimit);
    hide CarveUp, Init, Used, Tables, InitKernelTables, Sound, PmmOk, Needed, Overlap, WholeFrames;
    var (s, cr3) := InitKernelTables(s0, c.mapLimit);
    if s0.base > 0 {
      if cr3 != 0 {
        IdentityIsKept(s.mem, cr3 / 0x1000, c.mapLimit);
      }
    } else {
      NoFramesNoTables(s0, c.mapLimit);
    }
  }

  /** The pool taken over from the carve-up. */
  lemma PoolFits(mem: Memory, base: Word, size: Word)
    requires base + size <= 0x1_0000_0000_0000 && base + size <= |mem| * 0x1000 <= 0x10_0000_0000_0000
    ensures var c := CarveUp(base, size);
      var s := Init(Reset(mem), c.poolStart, c.poolSize);
      && PmmOk(s) && Used(s) == {} && s.free == WholeFrames(c.poolStart, c.poolSize) && s.used == 0
      && (s.free > 0 ==> s.base > 0 && (s.end <= WINDOW_START || s.base >= WINDOW_END) && s.end <= base + size)
      && (s.free == 0 ==> s.base == s.end == 0)
  {
    CarveSpec(base, size);
    var c := CarveUp(base, size);
    hide CarveUp, Init, Used, PmmOk, WholeFrames, KeptBytes;
    if c.poolSize == 0 {
      EmptyPool(mem, c.poolStart);
    } else {
      InitSpec(mem, c.poolStart, c.poolSize);
      if c.poolStart == 0 {
        assert c.poolSize <= 1;
        TinyPool(c.poolSize);
      }
    }
  }

  lemma TinyPool(size: nat)
    requires size <= 1
    ensures WholeFrames(0, size) == 0
  {
  }

  lemma EmptyPool(mem: Memory, start: Word)
    requires |mem| * 0x1000 <= 0x10_0000_0000_0000 && start <= 0x1_0000_0000_0000
    ensures var s := Init(Reset(mem), start, 0);
      && PmmOk(s) && Used(s) == {} && s.free == 0 == WholeFrames(start, 0) && s.used == 0 && s.base == s.end == 0
  {
    InitBounds(start, 0);
    hide AlignUp, AlignDown;
    var s := Init(Reset(mem), start, 0);
    assert IsFreeList(s, []);
    FreeListIs(s, []);
    UsedCount(s);
  }

  lemma NoFramesNoTables(s: Hal, limit: Word)
    requires PmmOk(s) && s.free == 0 && limit <= 0x1_0000_0000_0000
    ensures InitKernelTables(s, limit).1 == 0 && Needed(GiBs(limit)) > 0
  {
    AllocSpec(s);
    hide PmmOk, Used;
  }

  lemma IdentityIsKept(m: Memory, root: nat, limit: Word)
    requires IdentityMap(m, root, GiBs(limit) * 0x4_0000)
    ensures IdentityKept(m, root, limit)
  {
    Euclid(limit + 0x3FFF_FFFF, 0x4000_0000);
    hide Resolve, FirstPage;
    forall p | Depth(p) == 4 && Kept(p, limit)
      ensures FirstPage(p) < GiBs(limit) * 0x4_0000
    {
    }
  }
}
