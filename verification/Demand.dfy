/** How many frames a walk or a load needs: exactly when each succeeds, and how far a load gets that does not. */
module Demand {
  import opened Words
  import opened PhysicalMemory
  import opened FrameAllocator
  import opened PageTables
  import opened Entries
  import opened TableSteps
  import opened PagingManager
  import opened PagingProofs
  import opened SectionLoader
  import opened LoaderProofs

  // ---------------------------------------------------------------- places a walk passes

  /** The places of the tables past `depth` on the way to va. */
  function WayFrom(va: Word, depth: nat): (r: set<Path>)
    requires depth <= 3
    ensures forall p :: p in r ==> depth < Depth(p) <= 3
    decreases 3 - depth
  {
    if depth == 3 then {} else {PlaceAt(va, depth + 1)} + WayFrom(va, depth + 1)
  }

  /** The places among these where no table sits. */
  ghost function Absent(m: Memory, root: nat, places: set<Path>): set<Path> {
    set p | p in places && !IsDir(m, root, p)
  }

  /** Tables a walk to va has to add. */
  ghost function Missing(m: Memory, root: nat, va: Word): nat {
    |Absent(m, root, WayFrom(va, 0))|
  }

  /** Tables sit where they sat and at `places`. */
  ghost predicate Extended(m: Memory, m': Memory, root: nat, places: set<Path>) {
    forall p :: IsDir(m', root, p) <==> IsDir(m, root, p) || p in places
  }

  lemma ExtendedAbsent(m: Memory, m': Memory, root: nat, added: set<Path>, places: set<Path>)
    requires Extended(m, m', root, added)
    ensures Absent(m', root, places) == Absent(m, root, places) - added
  {
    hide IsDir;
  }

  // ---------------------------------------------------------------- one level

  /** A kernel with tables has a pool above address 0. */
  lemma ExhaustedIs(s: Hal, root: nat)
    requires Sound(s, root)
    ensures Exhausted(s) <==> s.free == 0
  {
    RootUsed(s, root);
    hide Used, PmmOk, TreeOk, LeafCarriesPolicy;
  }

  lemma RootUsed(s: Hal, root: nat)
    requires Sound(s, root)
    ensures s.cursor > 0
  {
    assert IsDir(s.mem, root, Top) && TableAt(s.mem, root, Top) == root;
    assert root in Used(s);
    hide TreeOk, LeafCarriesPolicy, FreeList;
  }

  lemma AllocExact(s: Hal, root: nat)
    requires Sound(s, root)
    ensures Alloc(s).1 == 0 <==> s.free == 0
    ensures s.free > 0 ==> Alloc(s).0.free == s.free - 1
  {
    ExhaustedIs(s, root);
    AllocSpec(s);
    if Alloc(s).1 != 0 { AllocTakesOne(s); }
    hide *;
  }

  lemma AllocTakesOne(s: Hal)
    requires Alloc(s).1 != 0 && s.free > 0
    ensures Alloc(s).0.free == s.free - 1
  {
  }

  lemma LinkExtends(s: Hal, root: nat, n: Path, i: Index, content: Frame)
    requires CanLinkState(s, root, n, i, content)
    ensures var s' := LinkState(s, root, n, i, content);
      Extended(s.mem, s'.mem, root, {In(n, i)}) && s'.free == s.free - 1
  {
    LinkStateIs(s, root, n, i, content);
    LinkKeepsTree(s.mem, root, Used(s), n, i, Alloc(s).1 / 0x1000, content, Or64(Alloc(s).1, 7));
    AllocExact(s, root);
    hide Alloc, PmmOk, Used, TreeOk, LeafCarriesPolicy, OnlyLeaves, Shows, Resolve, Or64, CanLink, IsDir, Linked,
      Tables;
  }

  /** One level of an allocating walk takes a frame exactly when no table sits there yet, and stops exactly when it
      needs one and there is none. */
  lemma StepExact(s: Hal, root: nat, n: Path, i: Index)
    requires Sound(s, root) && IsDir(s.mem, root, n) && Depth(n) <= 2
    ensures var (s', ok) := WalkStep(s, TableAt(s.mem, root, n), i, ShiftAt(Depth(n)), true);
      var there := IsDir(s.mem, root, In(n, i));
      && (ok <==> there || s.free > 0)
      && (ok ==> Extended(s.mem, s'.mem, root, {In(n, i)}) && s'.free == s.free - (if there then 0 else 1))
      && (!ok ==> s' == s)
  {
    var e := Load(s.mem, TableAt(s.mem, root, n), i);
    AllocExact(s, root);
    if Present(e) && !LargePage(e) {
      StepThere(s, root, n, i, e);
    } else {
      ChildNotDir(s.mem, root, n, i);
      if Alloc(s).1 != 0 {
        if Present(e) {
          StepSplit(s, root, n, i);
          LinkExtends(s, root, n, i, SplitFrame(e, ShiftAt(Depth(n))));
        } else {
          StepAbsent(s, root, n, i);
          LinkExtends(s, root, n, i, Zeros());
        }
      } else {
        StepNone(s, root, n, i, e);
      }
      hide *;
    }
  }

  lemma StepThere(s: Hal, root: nat, n: Path, i: Index, e: Word)
    requires Sound(s, root) && IsDir(s.mem, root, n) && Depth(n) <= 2
    requires e == Load(s.mem, TableAt(s.mem, root, n), i) && Present(e) && !LargePage(e)
    ensures IsDir(s.mem, root, In(n, i))
    ensures var (s', ok) := WalkStep(s, TableAt(s.mem, root, n), i, ShiftAt(Depth(n)), true);
      ok && Extended(s.mem, s'.mem, root, {In(n, i)}) && s'.free == s.free
  {
    OpenStateEvolves(s, root, n, i, e, Or64(e, 7));
    hide Or64, Sound, Present, LargePage, Resolve, Evolves, IsDir, Alloc;
  }

  lemma StepNone(s: Hal, root: nat, n: Path, i: Index, e: Word)
    requires IsDir(s.mem, root, n) && Depth(n) <= 2 && Alloc(s).1 == 0 && PmmOk(s)
    requires e == Load(s.mem, TableAt(s.mem, root, n), i) && (!Present(e) || LargePage(e))
    ensures WalkStep(s, TableAt(s.mem, root, n), i, ShiftAt(Depth(n)), true) == (s, false)
  {
    AllocSpec(s);
    hide PmmOk, Alloc, Present, LargePage, Resolve, Used;
  }

  // ---------------------------------------------------------------- the walk

  /** From a table on: the walk succeeds exactly when the free frames are at least the tables missing below, takes
      exactly these, and otherwise takes all there are. */
  lemma {:induction false} WalkFromExact(s: Hal, root: nat, va: Word, depth: nat)
    requires Sound(s, root) && depth <= 3 && IsDir(s.mem, root, PlaceAt(va, depth))
    ensures var (s', slot) := WalkFrom(s, TableAt(s.mem, root, PlaceAt(va, depth)), va, ShiftAt(depth), true);
      WalkCounts(s, s', root, WayFrom(va, depth), slot.At?)
    decreases 3 - depth
  {
    hide WalkStep, Sound, Resolve, IsDir, Extended, Evolves, Absent, WayFrom;
    var n := PlaceAt(va, depth);
    var t := TableAt(s.mem, root, n);
    if depth == 3 {
      NoWay(s, root, va);
    } else {
      var i := IndexAt(va, ShiftAt(depth));
      var (s1, ok) := WalkStep(s, t, i, ShiftAt(depth), true);
      WalkStepSpec(s, root, n, i, true);
      StepExact(s, root, n, i);
      assert In(n, i) == PlaceAt(va, depth + 1);
      if ok {
        StepSound(s, s1, root);
        WalkFromExact(s1, root, va, depth + 1);
        var (s', slot) := WalkFrom(s1, TableAt(s1.mem, root, In(n, i)), va, ShiftAt(depth + 1), true);
        WayGrows(s, s1, s', root, va, depth, slot.At?);
      } else {
        WayStops(s, root, va, depth);
      }
    }
  }

  /** What the counters and the places say after a walk past `places`. */
  ghost predicate WalkCounts(s: Hal, s': Hal, root: nat, places: set<Path>, ok: bool) {
    var missing := |Absent(s.mem, root, places)|;
    && (ok <==> s.free >= missing)
    && (ok ==> Extended(s.mem, s'.mem, root, places) && s'.free == s.free - missing)
    && (!ok ==> s'.free == 0)
  }

  lemma StepSound(s: Hal, s': Hal, root: nat)
    requires Evolves(s, s', root, {}, {})
    ensures Sound(s', root)
  {
    hide Sound, Accounted, Foreign, SamePages, DirsKept;
  }

  lemma NoWay(s: Hal, root: nat, va: Word)
    ensures WalkCounts(s, s, root, WayFrom(va, 3), true)
  {
    hide IsDir;
    assert Absent(s.mem, root, {}) == {};
  }

  lemma WayGrows(s: Hal, s1: Hal, s': Hal, root: nat, va: Word, depth: nat, ok: bool)
    requires depth < 3
    requires var c := PlaceAt(va, depth + 1);
      && Extended(s.mem, s1.mem, root, {c}) && s1.free == s.free - (if IsDir(s.mem, root, c) then 0 else 1)
      && WalkCounts(s1, s', root, WayFrom(va, depth + 1), ok)
    ensures WalkCounts(s, s', root, WayFrom(va, depth), ok)
  {
    hide IsDir, PlaceAt;
    var c, rest := PlaceAt(va, depth + 1), WayFrom(va, depth + 1);
    assert WayFrom(va, depth) == {c} + rest;
    hide WayFrom, Extended, Absent;
    OneMorePlace(s.mem, s1.mem, s'.mem, root, c, rest);
  }

  /** Adding a table at c leaves the other missing places missing. */
  lemma OneMorePlace(m: Memory, m1: Memory, m2: Memory, root: nat, c: Path, rest: set<Path>)
    requires Extended(m, m1, root, {c})
    ensures |Absent(m, root, {c} + rest)| == (if IsDir(m, root, c) then 0 else 1) + |Absent(m1, root, rest)|
    ensures Extended(m1, m2, root, rest) ==> Extended(m, m2, root, {c} + rest)
  {
    hide IsDir;
    assert Absent(m, root, {c}) == if IsDir(m, root, c) then {} else {c};
    hide Absent, Extended;
    AbsentSplit(m, m1, root, {c}, rest);
    ExtendedBoth(m, m1, m2, root, {c}, rest);
  }

  lemma ExtendedBoth(m: Memory, m1: Memory, m2: Memory, root: nat, a: set<Path>, b: set<Path>)
    requires Extended(m, m1, root, a)
    ensures Extended(m1, m2, root, b) ==> Extended(m, m2, root, a + b)
  {
    hide IsDir;
  }

  lemma WayStops(s: Hal, root: nat, va: Word, depth: nat)
    requires depth < 3 && !IsDir(s.mem, root, PlaceAt(va, depth + 1)) && s.free == 0
    ensures WalkCounts(s, s, root, WayFrom(va, depth), false)
  {
    hide IsDir, PlaceAt;
    assert PlaceAt(va, depth + 1) in Absent(s.mem, root, WayFrom(va, depth));
  }

  /** mm_walk_page, allocating: it succeeds exactly when the free frames are at least the tables missing on its way.
      Then it takes exactly these frames and links them exactly there; otherwise it leaves no frame free. */
  lemma WalkExact(s: Hal, cr3: Word, va: Word)
    requires cr3 / 0x1000 != 0 && Sound(s, cr3 / 0x1000)
    ensures var root := cr3 / 0x1000;
      var (s', slot) := Walk(s, cr3, va, true);
      && (slot.At? <==> s.free >= Missing(s.mem, root, va))
      && (slot.At? ==> s'.free == s.free - Missing(s.mem, root, va))
      && (slot.At? ==> Extended(s.mem, s'.mem, root, WayFrom(va, 0)))
      && (slot.NoSlot? ==> s'.free == 0)
  {
    assert PlaceAt(va, 0) == Top;
    WalkFromExact(s, cr3 / 0x1000, va, 0);
  }

  // ---------------------------------------------------------------- mapping

  /** mm_map_page_in of a frame: as its walk. */
  lemma MapExact(s: Hal, cr3: Word, va: Word, pa: Word, flags: Word)
    requires cr3 / 0x1000 != 0 && Sound(s, cr3 / 0x1000) && pa != 0 && pa % 0x1000 == 0 && pa < 0x10_0000_0000_0000
    ensures var root := cr3 / 0x1000;
      var (s', status) := MapPage(s, cr3, va, pa, flags);
      && (status == Success <==> s.free >= Missing(s.mem, root, va))
      && (status == Success ==> s'.free == s.free - Missing(s.mem, root, va))
      && (status == Success ==> Extended(s.mem, s'.mem, root, WayFrom(va, 0)))
      && (status != Success ==> s'.free == 0)
  {
    hide Evolves, Resolve, Exhausted, Walk, PathOf, PlaceAt, LeafEntry, Sound, IsDir, Missing, WayFrom;
    var root := cr3 / 0x1000;
    var (s1, slot) := Walk(s, cr3, va, true);
    WalkSpec(s, cr3, va, true);
    WalkExact(s, cr3, va);
    if slot.At? {
      EvolvesSound(s, s1, root, {}, {});
      SlotEvolves(s1, root, va, LeafEntry(pa, flags));
    }
  }

  /** A frame taken for oneself adds no table. */
  lemma AllocDirs(s: Hal, root: nat)
    requires Sound(s, root) && Alloc(s).1 != 0
    ensures Sound(Alloc(s).0, root) && Extended(s.mem, Alloc(s).0.mem, root, {})
  {
    AllocEvolves(s, root);
    TablesUsed(s, root);
    var f := Alloc(s).1 / 0x1000;
    hide PmmOk, Used, TreeOk, LeafCarriesPolicy, Alloc, Resolve, IsDir, Accounted, Foreign, SamePages, DirsKept;
    assert f !in Tables(s.mem, root);
    WriteElsewhere(s.mem, root, f, Zeros());
  }

  // ---------------------------------------------------------------- loads

  /** The places on the ways to pages i to n of a range. */
  function Ways(base: Word, i: nat, n: nat): set<Path>
    decreases n - i
  {
    if i >= n then {} else WayFrom(PageAddr(base, i), 0) + Ways(base, i + 1, n)
  }

  /** Frames that pages i to n need: one each, and the tables missing for them. */
  ghost function Cost(m: Memory, root: nat, base: Word, i: nat, n: nat): nat
    requires i <= n
  {
    n - i + |Absent(m, root, Ways(base, i, n))|
  }

  /** One mapped page less to pay for. */
  lemma CostNext(m: Memory, m': Memory, root: nat, base: Word, k: nat, j: nat)
    requires k < j && Extended(m, m', root, WayFrom(PageAddr(base, k), 0))
    ensures Cost(m, root, base, k, j) == 1 + Missing(m, root, PageAddr(base, k)) + Cost(m', root, base, k + 1, j)
  {
    var way, rest := WayFrom(PageAddr(base, k), 0), Ways(base, k + 1, j);
    assert Ways(base, k, j) == way + rest;
    hide IsDir, WayFrom, Ways, PageAddr;
    AbsentSplit(m, m', root, way, rest);
  }

  lemma AbsentSplit(m: Memory, m': Memory, root: nat, way: set<Path>, rest: set<Path>)
    requires Extended(m, m', root, way)
    ensures |Absent(m, root, way + rest)| == |Absent(m, root, way)| + |Absent(m', root, rest)|
  {
    ExtendedAbsent(m, m', root, way, rest);
    hide IsDir;
    assert Absent(m, root, way + rest) == Absent(m, root, way) + Absent(m', root, rest);
  }

  lemma CostAtLeast(m: Memory, root: nat, base: Word, k: nat, j: nat)
    requires k < j
    ensures Cost(m, root, base, k, j) >= 1 + Missing(m, root, PageAddr(base, k))
  {
    var way, rest := WayFrom(PageAddr(base, k), 0), Ways(base, k + 1, j);
    assert Ways(base, k, j) == way + rest;
    hide IsDir, WayFrom, Ways, PageAddr;
    var few, all := Absent(m, root, way), Absent(m, root, way + rest);
    assert few <= all;
    assert |all| == |few| + |all - few|;
  }

  lemma ExtendedThen(m: Memory, m1: Memory, m2: Memory, root: nat, places: set<Path>)
    requires Extended(m, m1, root, {}) && Extended(m1, m2, root, places)
    ensures Extended(m, m2, root, places) && Absent(m1, root, places) == Absent(m, root, places)
  {
    hide IsDir;
  }

  /** The mapping loop gets past page j exactly when the free frames pay for the pages up to j. */
  lemma {:induction false} MapPagesExact(s: Hal, cr3: Word, base: Word, k: nat, n: nat, j: nat)
    requires cr3 / 0x1000 != 0 && Sound(s, cr3 / 0x1000) && k <= j <= n
    ensures j <= Mapped(s, cr3, base, k, n) <==> s.free >= Cost(s.mem, cr3 / 0x1000, base, k, j)
    decreases n - k
  {
    hide Sound, Alloc, MapPage, Cost, Missing, Extended, WayFrom, PageAddr, Evolves, Resolve;
    var root, va := cr3 / 0x1000, PageAddr(base, k);
    if k == j {
      NoCost(s.mem, root, base, k);
    } else {
      AllocExact(s, root);
      CostAtLeast(s.mem, root, base, k, j);
      var (s1, frame) := Alloc(s);
      if frame != 0 {
        AllocEvolves(s, root);
        AllocDirs(s, root);
        MapExact(s1, cr3, va, frame, LOAD_FLAGS);
        var (s2, status) := MapPage(s1, cr3, va, frame, LOAD_FLAGS);
        MissingSame(s.mem, s1.mem, root, va);
        if status == Success {
          MapSpec(s1, cr3, va, frame, LOAD_FLAGS);
          EvolvesSound(s1, s2, root, {PathOf(va)}, {});
          ExtendedThen(s.mem, s1.mem, s2.mem, root, WayFrom(va, 0));
          CostNext(s.mem, s2.mem, root, base, k, j);
          MapPagesExact(s2, cr3, base, k + 1, n, j);
        }
      }
    }
  }

  lemma NoCost(m: Memory, root: nat, base: Word, k: nat)
    ensures Cost(m, root, base, k, k) == 0
  {
    hide IsDir;
    assert Absent(m, root, {}) == {};
  }

  lemma MissingSame(m: Memory, m1: Memory, root: nat, va: Word)
    requires Extended(m, m1, root, {})
    ensures Missing(m1, root, va) == Missing(m, root, va)
  {
    hide IsDir, WayFrom;
    assert Absent(m1, root, WayFrom(va, 0)) == Absent(m, root, WayFrom(va, 0));
  }

  /** How many of n pages the free frames pay for, tables included. */
  ghost function Reach(s: Hal, root: nat, base: Word, n: nat): (i: nat)
    ensures i <= n
    decreases n
  {
    if n == 0 || s.free >= Cost(s.mem, root, base, 0, n) then n else Reach(s, root, base, n - 1)
  }

  /** The mapping loop gets exactly as far as the free frames pay for. */
  lemma {:induction false} ReachIs(s: Hal, cr3: Word, base: Word, n: nat, j: nat)
    requires cr3 / 0x1000 != 0 && Sound(s, cr3 / 0x1000) && Mapped(s, cr3, base, 0, n) <= j <= n
    ensures Reach(s, cr3 / 0x1000, base, j) == Mapped(s, cr3, base, 0, n)
    decreases j
  {
    hide Sound, Cost, Mapped;
    MapPagesExact(s, cr3, base, 0, n, j);
    if j > Mapped(s, cr3, base, 0, n) {
      ReachIs(s, cr3, base, n, j - 1);
    }
  }

  /** The mapping loop maps as many pages as the free frames pay for before it ends or stops, so it succeeds exactly
      when they are at least the pages plus the tables missing for them. */
  lemma LoadExact(s: Hal, cr3: Word, base: Word, n: nat)
    requires cr3 / 0x1000 != 0 && Sound(s, cr3 / 0x1000) && n < 0x10_0000_0000
    ensures Mapped(s, cr3, base, 0, n) == Reach(s, cr3 / 0x1000, base, n)
    ensures MapPages(s, cr3, base, 0, n).1 == Success <==> s.free >= Cost(s.mem, cr3 / 0x1000, base, 0, n)
  {
    hide Sound, Cost, MapPages, Mapped, Holding, AllZero, Reach;
    HoldingNothing(s, cr3 / 0x1000, base);
    MapPagesSpec(s, s, cr3, base, [], n);
    MapPagesExact(s, cr3, base, 0, n, n);
    ReachIs(s, cr3, base, n, n);
  }

  /** A mapping loop that succeeds takes exactly these frames. */
  lemma {:induction false} LoadTakes(s: Hal, cr3: Word, base: Word, k: nat, n: nat)
    requires cr3 / 0x1000 != 0 && Sound(s, cr3 / 0x1000) && k <= n
    requires MapPages(s, cr3, base, k, n).1 == Success
    ensures MapPages(s, cr3, base, k, n).0.free == s.free - Cost(s.mem, cr3 / 0x1000, base, k, n)
    decreases n - k
  {
    hide Sound, Alloc, MapPage, Cost, Missing, Extended, WayFrom, PageAddr, Evolves, Resolve, UnmapPages;
    var root, va := cr3 / 0x1000, PageAddr(base, k);
    if k == n {
      NoCost(s.mem, root, base, k);
    } else {
      AllocExact(s, root);
      var (s1, frame) := Alloc(s);
      AllocEvolves(s, root);
      AllocDirs(s, root);
      MapExact(s1, cr3, va, frame, LOAD_FLAGS);
      var s2 := MapPage(s1, cr3, va, frame, LOAD_FLAGS).0;
      MissingSame(s.mem, s1.mem, root, va);
      MapSpec(s1, cr3, va, frame, LOAD_FLAGS);
      EvolvesSound(s1, s2, root, {PathOf(va)}, {});
      ExtendedThen(s.mem, s1.mem, s2.mem, root, WayFrom(va, 0));
      CostNext(s.mem, s2.mem, root, base, k, n);
      LoadTakes(s2, cr3, base, k + 1, n);
    }
  }
}
