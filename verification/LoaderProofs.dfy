/** What mapping a range of pages and rolling it back promise. */
module LoaderProofs {
  import opened Words
  import opened PhysicalMemory
  import opened FrameAllocator
  import opened PageTables
  import opened PagingManager
  import opened PagingProofs
  import opened Translation
  import opened SectionLoader

  /** Place of the k-th page from base. */
  function Page(base: Word, k: nat): Path {
    PathOf(PageAddr(base, k))
  }

  function PageSet(base: Word, n: nat): (r: set<Path>)
    ensures forall k :: 0 <= k < n ==> Page(base, k) in r
    ensures forall p :: p in r ==> exists k :: 0 <= k < n && p == Page(base, k)
  {
    if n == 0 then {} else PageSet(base, n - 1) + {Page(base, n - 1)}
  }

  function FrameSet(fs: seq<nat>): set<nat> {
    set f | f in fs
  }

  /** Page numbers count up from the base, modulo the 36 translated bits, also when the address wraps. */
  lemma PageNumber(base: Word, k: nat)
    requires k <= 0x10_0000_0000
    ensures PageAddr(base, k) / 0x1000 % 0x10_0000_0000 == (base / 0x1000 + k) % 0x10_0000_0000
    ensures PageAddr(base, k) % 0x1000 == base % 0x1000
  {
    var x := base + k * 0x1000;
    var c := x / 0x1_0000_0000_0000_0000;
    Euclid(x, 0x1_0000_0000_0000_0000);
    Euclid(base, 0x1000);
    var n := base / 0x1000 + k;
    var a := PageAddr(base, k);
    assert a == (n - c * 0x10_0000_0000_0000) * 0x1000 + base % 0x1000;
    DivIs(a, 0x1000, n - c * 0x10_0000_0000_0000, base % 0x1000);
    ModMinus(n, c * 0x1_0000, 0x10_0000_0000);
  }

  lemma ModMinus(n: nat, c: nat, d: nat)
    requires d > 0 && n >= c * d
    ensures (n - c * d) % d == n % d
  {
    Euclid(n - c * d, d);
    var q := (n - c * d) / d;
    assert n == (q + c) * d + (n - c * d) % d;
    DivIs(n, d, q + c, (n - c * d) % d);
  }

  lemma PagesDistinct(base: Word, j: nat, k: nat)
    requires j < k < 0x10_0000_0000
    ensures Page(base, j) != Page(base, k)
  {
    PageNumber(base, j);
    PageNumber(base, k);
    PlacesDiffer(PageAddr(base, j), PageAddr(base, k));
    hide PathOf, PageAddr;
    NumbersDiffer(base / 0x1000, j, k);
  }

  lemma NumbersDiffer(n: nat, j: nat, k: nat)
    requires j < k < 0x10_0000_0000
    ensures (n + j) % 0x10_0000_0000 != (n + k) % 0x10_0000_0000
  {
    Euclid(n + j, 0x10_0000_0000);
    Euclid(n + k, 0x10_0000_0000);
  }

  // ---------------------------------------------------------------- holding mapped pages

  /** Since s0 the first i pages from base were touched; the first |fs| of them show the frames fs, which were taken
      for this and nothing else, and the rest of them show nothing. */
  ghost predicate Holding(s0: Hal, s: Hal, root: nat, base: Word, i: nat, fs: seq<nat>) {
    && |fs| <= i < 0x10_0000_0000
    && Evolves(s0, s, root, PageSet(base, i), FrameSet(fs))
    && Distinct(fs)
    && (forall k :: 0 <= k < |fs| ==> Shown(s.mem, root, base, k, fs[k]))
    && (forall k :: |fs| <= k < i ==> Resolve(s.mem, root, Page(base, k)) == Fault)
  }

  /** The k-th page shows frame f, writable for the user, by a last-level entry. */
  ghost predicate Shown(m: Memory, root: nat, base: Word, k: nat, f: nat) {
    && 0 < f < 0x100_0000_0000
    && Resolve(m, root, Page(base, k)) == LoadedView(f)
    && IsDir(m, root, PlaceAt(PageAddr(base, k), 3))
  }

  lemma HoldingEvolves(s: Hal, s': Hal, root: nat, base: Word, i: nat, gs: seq<nat>)
    requires Holding(s, s', root, base, i, gs)
    ensures Evolves(s, s', root, PageSet(base, i), FrameSet(gs))
  {
  }

  function LoadedView(f: nat): View {
    Leaf(f, true, true, false, Attr(true, true, false, false, false, false))
  }

  ghost predicate AllZero(m: Memory, fs: seq<nat>) {
    forall k :: 0 <= k < |fs| ==> fs[k] < |m| && m[fs[k]] == Zeros()
  }

  lemma HoldingNothing(s: Hal, root: nat, base: Word)
    requires Sound(s, root)
    ensures Holding(s, s, root, base, 0, []) && AllZero(s.mem, [])
  {
    EvolvesRefl(s, root);
    hide Evolves, Resolve;
    assert FrameSet([]) == {};
  }

  /** Views and tables that a later step leaves alone. */
  lemma ShownKept(m: Memory, m': Memory, root: nat, base: Word, k: nat, f: nat, pages: set<Path>)
    requires Shown(m, root, base, k, f) && SamePages(m, m', root, pages) && DirsKept(m, m', root)
    requires Page(base, k) !in pages
    ensures Shown(m', root, base, k, f)
  {
    PathOfPage(PageAddr(base, k));
    hide Resolve, PathOf, IsDir;
  }

  lemma EvolvesParts(s: Hal, s': Hal, root: nat, pages: set<Path>, held: set<nat>)
    requires Evolves(s, s', root, pages, held)
    ensures Sound(s, root) && Sound(s', root) && |s'.mem| == |s.mem|
    ensures SamePages(s.mem, s'.mem, root, pages) && DirsKept(s.mem, s'.mem, root)
    ensures forall f | 0 <= f < |s.mem| && Foreign(s, root, f) :: s'.mem[f] == s.mem[f]
  {
  }

  /** A held frame's content survives a step that does not write it. */
  lemma HeldKept(s0: Hal, s: Hal, s': Hal, root: nat, p: set<Path>, x: set<nat>, q: set<Path>, y: set<nat>, f: nat)
    requires Evolves(s0, s, root, p, x) && Evolves(s, s', root, q, y) && f in x
    ensures f < |s.mem| && s'.mem[f] == s.mem[f]
  {
    HeldNotForeign(s0, s, root, p, x, f);
    EvolvesParts(s, s', root, q, y);
    assert Foreign(s, root, f);
    hide Evolves;
  }

  /** A frame in other hands stays there, and its content survives. */
  lemma ForeignKept(s: Hal, s': Hal, root: nat, pages: set<Path>, held: set<nat>, f: nat)
    requires Evolves(s, s', root, pages, held) && Foreign(s, root, f)
    ensures Foreign(s', root, f) && f !in held
    ensures f < |s.mem| ==> |s'.mem| == |s.mem| && s'.mem[f] == s.mem[f]
  {
    if f in held { HeldNotForeign(s, s', root, pages, held, f); }
    hide Tables, Used, PmmOk, TreeOk, LeafCarriesPolicy, SamePages, DirsKept;
  }

  /** One more page: a fresh zero frame, shown by the next page. */
  lemma MapOne(s0: Hal, s: Hal, cr3: Word, base: Word, fs: seq<nat>)
    requires cr3 / 0x1000 != 0 && Holding(s0, s, cr3 / 0x1000, base, |fs|, fs) && |fs| + 1 < 0x10_0000_0000
    requires Alloc(s).1 != 0
    ensures var root := cr3 / 0x1000;
      var (s1, frame) := Alloc(s);
      var (s2, status) := MapPage(s1, cr3, PageAddr(base, |fs|), frame, LOAD_FLAGS);
      && Evolves(s, s1, root, {}, {frame / 0x1000}) && frame % 0x1000 == 0 && frame < 0x10_0000_0000_0000
      && frame / 0x1000 < |s.mem| && s1.mem == s.mem[frame / 0x1000 := Zeros()]
      && Evolves(s1, s2, root, if status == Success then {Page(base, |fs|)} else {}, {})
      && (status == Success ==> Shown(s2.mem, root, base, |fs|, frame / 0x1000))
  {
    var root := cr3 / 0x1000;
    hide Evolves, MapPage, Resolve, Alloc, Page, IsDir;
    EvolvesSound(s0, s, root, PageSet(base, |fs|), FrameSet(fs));
    AllocEvolves(s, root);
    var (s1, frame) := Alloc(s);
    EvolvesSound(s, s1, root, {}, {frame / 0x1000});
    var va := PageAddr(base, |fs|);
    MapSpec(s1, cr3, va, frame, LOAD_FLAGS);
    LoadPolicy(frame);
    PageIs(base, |fs|);
    if MapPage(s1, cr3, va, frame, LOAD_FLAGS).1 == Success {
      MappedIsSmall(s1, cr3, va, frame, LOAD_FLAGS);
    }
  }

  lemma PageIs(base: Word, k: nat)
    ensures Page(base, k) == PathOf(PageAddr(base, k))
  {
  }

  lemma LoadPolicy(frame: Word)
    ensures MappedView(frame, LOAD_FLAGS) == LoadedView(frame / 0x1000)
  {
  }

  /** A page mapped successfully joins the holding. */
  lemma MapOneHolds(s0: Hal, s: Hal, cr3: Word, base: Word, fs: seq<nat>)
    requires cr3 / 0x1000 != 0 && Holding(s0, s, cr3 / 0x1000, base, |fs|, fs) && |fs| + 1 < 0x10_0000_0000
    requires Alloc(s).1 != 0 && MapPage(Alloc(s).0, cr3, PageAddr(base, |fs|), Alloc(s).1, LOAD_FLAGS).1 == Success
    ensures var (s1, frame) := Alloc(s);
      var s2 := MapPage(s1, cr3, PageAddr(base, |fs|), frame, LOAD_FLAGS).0;
      && Holding(s0, s2, cr3 / 0x1000, base, |fs| + 1, fs + [frame / 0x1000])
      && (AllZero(s.mem, fs) ==> AllZero(s2.mem, fs + [frame / 0x1000]))
  {
    hide Evolves, MapPage, Resolve, Alloc, Page, IsDir, Shown, Holding, AllZero;
    var root := cr3 / 0x1000;
    var (s1, frame) := Alloc(s);
    var s2 := MapPage(s1, cr3, PageAddr(base, |fs|), frame, LOAD_FLAGS).0;
    MapOneOk(s0, s, cr3, base, fs);
    ExtendHolding(s0, s, s2, root, base, fs, frame / 0x1000);
    if AllZero(s.mem, fs) {
      ExtendZero(s0, s, s2, root, base, fs, frame / 0x1000);
    }
  }

  lemma MapOneOk(s0: Hal, s: Hal, cr3: Word, base: Word, fs: seq<nat>)
    requires cr3 / 0x1000 != 0 && Holding(s0, s, cr3 / 0x1000, base, |fs|, fs) && |fs| + 1 < 0x10_0000_0000
    requires Alloc(s).1 != 0 && MapPage(Alloc(s).0, cr3, PageAddr(base, |fs|), Alloc(s).1, LOAD_FLAGS).1 == Success
    ensures var root := cr3 / 0x1000;
      var (s1, frame) := Alloc(s);
      var s2 := MapPage(s1, cr3, PageAddr(base, |fs|), frame, LOAD_FLAGS).0;
      var f := frame / 0x1000;
      && Evolves(s, s2, root, {Page(base, |fs|)}, {f})
      && Shown(s2.mem, root, base, |fs|, f)
      && f < |s2.mem| && s2.mem[f] == Zeros()
  {
    hide *;
    MapOne(s0, s, cr3, base, fs);
    FreshThenMapped(s, Alloc(s).0, MapPage(Alloc(s).0, cr3, PageAddr(base, |fs|), Alloc(s).1, LOAD_FLAGS).0,
                    cr3 / 0x1000, Page(base, |fs|), Alloc(s).1 / 0x1000);
  }

  lemma FreshThenMapped(s: Hal, s1: Hal, s2: Hal, root: nat, p: Path, f: nat)
    requires Evolves(s, s1, root, {}, {f}) && f < |s.mem| && s1.mem == s.mem[f := Zeros()]
    requires Evolves(s1, s2, root, {p}, {})
    ensures Evolves(s, s2, root, {p}, {f}) && f < |s2.mem| && s2.mem[f] == Zeros()
  {
    hide *;
    EvolvesBoth(s, s1, s2, root, p, f);
    HeldKept(s, s1, s2, root, {}, {f}, {p}, {}, f);
    EvolvesParts(s1, s2, root, {p}, {});
  }

  lemma EvolvesBoth(s: Hal, s1: Hal, s2: Hal, root: nat, p: Path, f: nat)
    requires Evolves(s, s1, root, {}, {f}) && Evolves(s1, s2, root, {p}, {})
    ensures Evolves(s, s2, root, {p}, {f})
  {
    EvolvesTrans(s, s1, s2, root, {}, {p}, {f}, {});
    hide Evolves;
    var none: set<Path>, noFrames: set<nat> := {}, {};
    assert none + {p} == {p} && {f} + noFrames == {f};
  }

  lemma ExtendHolding(s0: Hal, s: Hal, s2: Hal, root: nat, base: Word, fs: seq<nat>, f: nat)
    requires Holding(s0, s, root, base, |fs|, fs) && |fs| + 1 < 0x10_0000_0000
    requires Evolves(s, s2, root, {Page(base, |fs|)}, {f}) && Shown(s2.mem, root, base, |fs|, f)
    ensures Holding(s0, s2, root, base, |fs| + 1, fs + [f])
  {
    hide Evolves, Resolve, Page, IsDir, Shown;
    var i := |fs|;
    EvolvesTrans(s0, s, s2, root, PageSet(base, i), {Page(base, i)}, FrameSet(fs), {f});
    assert FrameSet(fs) + {f} == FrameSet(fs + [f]);
    assert PageSet(base, i) + {Page(base, i)} == PageSet(base, i + 1);
    EvolvesParts(s, s2, root, {Page(base, i)}, {f});
    FreshIsNew(s0, s, s2, root, PageSet(base, i), fs, {Page(base, i)}, f);
    forall k | 0 <= k < i
      ensures Shown(s2.mem, root, base, k, fs[k])
    {
      PagesDistinct(base, k, i);
      ShownKept(s.mem, s2.mem, root, base, k, fs[k], {Page(base, i)});
    }
  }

  lemma ExtendZero(s0: Hal, s: Hal, s2: Hal, root: nat, base: Word, fs: seq<nat>, f: nat)
    requires Holding(s0, s, root, base, |fs|, fs) && AllZero(s.mem, fs)
    requires Evolves(s, s2, root, {Page(base, |fs|)}, {f}) && f < |s2.mem| && s2.mem[f] == Zeros()
    ensures AllZero(s2.mem, fs + [f])
  {
    hide Evolves, Resolve, Page, IsDir, Shown;
    forall k | 0 <= k < |fs|
      ensures fs[k] < |s2.mem| && s2.mem[fs[k]] == Zeros()
    {
      HeldKept(s0, s, s2, root, PageSet(base, |fs|), FrameSet(fs), {Page(base, |fs|)}, {f}, fs[k]);
      EvolvesParts(s, s2, root, {Page(base, |fs|)}, {f});
    }
  }

  lemma FreshIsNew(s0: Hal, s: Hal, s1: Hal, root: nat, p: set<Path>, fs: seq<nat>, q: set<Path>, f: nat)
    requires Evolves(s0, s, root, p, FrameSet(fs)) && Evolves(s, s1, root, q, {f})
    ensures f !in fs
  {
    EvolvesAccounted(s, s1, root, q, {f});
    forall k | 0 <= k < |fs|
      ensures fs[k] != f
    {
      HeldNotForeign(s0, s, root, p, FrameSet(fs), fs[k]);
    }
    hide Evolves;
  }

  lemma EvolvesAccounted(s: Hal, s': Hal, root: nat, pages: set<Path>, held: set<nat>)
    requires Evolves(s, s', root, pages, held)
    ensures held !! Used(s)
  {
  }

  /** A page that could not be mapped: the frame goes back, the holding stays. */
  lemma MapOneFails(s0: Hal, s: Hal, cr3: Word, base: Word, fs: seq<nat>)
    requires cr3 / 0x1000 != 0 && Holding(s0, s, cr3 / 0x1000, base, |fs|, fs) && |fs| + 1 < 0x10_0000_0000
    requires Alloc(s).1 != 0 && MapPage(Alloc(s).0, cr3, PageAddr(base, |fs|), Alloc(s).1, LOAD_FLAGS).1 != Success
    ensures var (s1, frame) := Alloc(s);
      var s2 := MapPage(s1, cr3, PageAddr(base, |fs|), frame, LOAD_FLAGS).0;
      && Holding(s0, Free(s2, frame), cr3 / 0x1000, base, |fs|, fs)
      && (s0.base > 0 ==> Free(s2, frame).free == 1)
  {
    hide Evolves, MapPage, Resolve, Alloc, Page, IsDir, Shown, Free;
    var root, i := cr3 / 0x1000, |fs|;
    var (s1, frame) := Alloc(s);
    var f := frame / 0x1000;
    var s2 := MapPage(s1, cr3, PageAddr(base, i), frame, LOAD_FLAGS).0;
    MapOne(s0, s, cr3, base, fs);
    EvolvesRegion(s0, s, root, PageSet(base, i), FrameSet(fs));
    MapFailsCount(s, s1, s2, cr3, PageAddr(base, i), frame);
    EvolvesTrans(s, s1, s2, root, {}, {}, {f}, {});
    var none: set<Path>, noFrames: set<nat> := {}, {};
    assert none + none == none && {f} + noFrames == {f};
    FreeHeld(s, s2, root, {}, {f}, f);
    assert {f} - {f} == noFrames && f * 0x1000 == frame;
    var s3 := Free(s2, frame);
    EvolvesTrans(s0, s, s3, root, PageSet(base, i), {}, FrameSet(fs), {});
    assert PageSet(base, i) + none == PageSet(base, i) && FrameSet(fs) + noFrames == FrameSet(fs);
    EvolvesParts(s, s3, root, {}, {});
    forall k | 0 <= k < i
      ensures Shown(s3.mem, root, base, k, fs[k])
    {
      ShownKept(s.mem, s3.mem, root, base, k, fs[k], {});
    }
  }

  /** A map that fails has used up the pool, but for the frame it was to map. */
  lemma MapFailsCount(s: Hal, s1: Hal, s2: Hal, cr3: Word, va: Word, frame: Word)
    requires cr3 / 0x1000 != 0 && Evolves(s, s1, cr3 / 0x1000, {}, {frame / 0x1000})
    requires frame != 0 && frame % 0x1000 == 0 && frame < 0x10_0000_0000_0000
    requires MapPage(s1, cr3, va, frame, LOAD_FLAGS).0 == s2 && MapPage(s1, cr3, va, frame, LOAD_FLAGS).1 != Success
    ensures s.base > 0 ==> Free(s2, frame).free == 1
  {
    hide *;
    EvolvesRegion(s, s1, cr3 / 0x1000, {}, {frame / 0x1000});
    EvolvesSound(s, s1, cr3 / 0x1000, {}, {frame / 0x1000});
    MapSpec(s1, cr3, va, frame, LOAD_FLAGS);
    EvolvesRegion(s1, s2, cr3 / 0x1000, {}, {});
    HeldUsed(s, s1, cr3 / 0x1000, {}, {frame / 0x1000}, frame / 0x1000);
    UsedGrows(s1, s2, cr3 / 0x1000, frame / 0x1000);
    if s.base > 0 {
      NoneFree(s2);
      FreeCounts(s2, frame);
    }
  }

  lemma UsedGrows(s: Hal, s': Hal, root: nat, f: nat)
    requires Evolves(s, s', root, {}, {}) && f in Used(s)
    ensures f in Used(s')
  {
    hide PmmOk, Used, TreeOk, LeafCarriesPolicy, Tables, Foreign, Resolve;
  }

  /** Undoing the last page of a holding. */
  lemma UnmapOne(s0: Hal, s: Hal, cr3: Word, base: Word, i: nat, fs: seq<nat>)
    requires cr3 / 0x1000 != 0 && Holding(s0, s, cr3 / 0x1000, base, i, fs) && fs != []
    ensures var j := |fs| - 1;
      var (s1, frame) := UnmapPage(s, cr3, PageAddr(base, j));
      && frame == fs[j] * 0x1000
      && Holding(s0, Free(s1, frame), cr3 / 0x1000, base, i, fs[..j])
      && Free(s1, frame).free == s.free + 1
      && FreeList(Free(s1, frame)) == [fs[j]] + FreeList(s)
  {
    hide Evolves, UnmapPage, Resolve, Page, IsDir, Free, PageAddr, PathOf, PlaceAt, Foreign, PageSet, FrameSet,
      DirsKept, SamePages;
    var root, j := cr3 / 0x1000, |fs| - 1;
    var va := PageAddr(base, j);
    var (s1, frame) := UnmapPage(s, cr3, va);
    var f := fs[j];
    var pg := Page(base, j);
    EvolvesSound(s0, s, root, PageSet(base, i), FrameSet(fs));
    PageIs(base, j);
    assert Shown(s.mem, root, base, j, f);
    UnmapSpec(s, cr3, va);
    assert Evolves(s, s1, root, {pg}, {}) && Used(s1) == Used(s) && FreeList(s1) == FreeList(s);
    hide Used, FreeList;
    EvolvesTrans(s0, s, s1, root, PageSet(base, i), {pg}, FrameSet(fs), {});
    OnePage(base, i, j, FrameSet(fs));
    DropLast(fs);
    var s2 := Free(s1, frame);
    FreeHeld(s0, s1, root, PageSet(base, i), FrameSet(fs), f);
    EvolvesParts(s, s1, root, {pg}, {});
    UnmapViews(s, s1, s2, root, base, i, fs);
    UnmapCounts(s0, s, s1, root, PageSet(base, i), fs, pg);
  }

  /** An unmap takes no frame, and giving the page's frame back adds one. */
  lemma UnmapCounts(s0: Hal, s: Hal, s1: Hal, root: nat, pages: set<Path>, fs: seq<nat>, pg: Path)
    requires fs != [] && 0 < fs[|fs| - 1] < 0x100_0000_0000
    requires Evolves(s0, s, root, pages, FrameSet(fs)) && Evolves(s, s1, root, {pg}, {}) && Used(s1) == Used(s)
    requires FreeList(s1) == FreeList(s)
    ensures Free(s1, fs[|fs| - 1] * 0x1000).free == s.free + 1
    ensures FreeList(Free(s1, fs[|fs| - 1] * 0x1000)) == [fs[|fs| - 1]] + FreeList(s)
  {
    hide *;
    var f := fs[|fs| - 1];
    LastHeld(fs);
    HeldUsed(s0, s, root, pages, FrameSet(fs), f);
    EvolvesRegion(s, s1, root, {pg}, {});
    UsedCount(s);
    UsedCount(s1);
    FreeCounts(s1, f * 0x1000);
    FreeSpec(s1, f * 0x1000);
  }

  lemma LastHeld(fs: seq<nat>)
    requires fs != []
    ensures fs[|fs| - 1] in FrameSet(fs)
  {
  }

  lemma HeldUsed(s0: Hal, s: Hal, root: nat, pages: set<Path>, held: set<nat>, f: nat)
    requires Evolves(s0, s, root, pages, held) && f in held
    ensures f in Used(s)
  {
    hide PmmOk, Used, TreeOk, LeafCarriesPolicy, Tables, Foreign, Resolve;
  }

  lemma EvolvesRegion(s: Hal, s': Hal, root: nat, pages: set<Path>, held: set<nat>)
    requires Evolves(s, s', root, pages, held)
    ensures PmmOk(s) && PmmOk(s') && s'.base == s.base && s'.end == s.end
  {
    hide PmmOk, Used, TreeOk, LeafCarriesPolicy, Tables, Foreign, Resolve;
  }

  lemma OnePage(base: Word, i: nat, j: nat, held: set<nat>)
    requires j < i < 0x10_0000_0000
    ensures PageSet(base, i) + {Page(base, j)} == PageSet(base, i)
    ensures held + {} == held
  {
    hide Page;
  }

  lemma DropLast(fs: seq<nat>)
    requires fs != [] && Distinct(fs)
    ensures fs[|fs| - 1] in FrameSet(fs)
    ensures FrameSet(fs) - {fs[|fs| - 1]} == FrameSet(fs[..|fs| - 1]) && Distinct(fs[..|fs| - 1])
  {
    var j := |fs| - 1;
    forall f
      ensures f in FrameSet(fs) - {fs[j]} <==> f in FrameSet(fs[..j])
    {
      if f in fs && f != fs[j] {
        var k :| 0 <= k < |fs| && fs[k] == f;
        assert fs[..j][k] == f;
      }
      if f in fs[..j] {
        var k :| 0 <= k < j && fs[..j][k] == f;
        assert fs[k] == f;
      }
    }
  }

  lemma UnmapViews(s: Hal, s1: Hal, s2: Hal, root: nat, base: Word, i: nat, fs: seq<nat>)
    requires fs != [] && |fs| <= i < 0x10_0000_0000
    requires var j := |fs| - 1;
      && SamePages(s.mem, s1.mem, root, {Page(base, j)}) && DirsKept(s.mem, s1.mem, root)
      && Resolve(s1.mem, root, Page(base, j)) == Fault
      && (forall n :: Depth(n) <= 4 ==> Resolve(s2.mem, root, n) == Resolve(s1.mem, root, n))
      && (forall k :: 0 <= k < |fs| ==> Shown(s.mem, root, base, k, fs[k]))
      && (forall k :: |fs| <= k < i ==> Resolve(s.mem, root, Page(base, k)) == Fault)
    ensures var j := |fs| - 1;
      && (forall k :: 0 <= k < j ==> Shown(s2.mem, root, base, k, fs[k]))
      && (forall k :: j <= k < i ==> Resolve(s2.mem, root, Page(base, k)) == Fault)
  {
    var j := |fs| - 1;
    hide Resolve, Page;
    forall k | 0 <= k < j
      ensures Shown(s2.mem, root, base, k, fs[k])
    {
      PagesDistinct(base, k, j);
      hide IsDir;
      ShownKept(s.mem, s1.mem, root, base, k, fs[k], {Page(base, j)});
      assert Shown(s1.mem, root, base, k, fs[k]);
      ShownSame(s1.mem, s2.mem, root, base, k, fs[k]);
    }
    forall k | j <= k < i
      ensures Resolve(s2.mem, root, Page(base, k)) == Fault
    {
      PageIs(base, k);
      PathOfPage(PageAddr(base, k));
      if k != j {
        PagesDistinct(base, j, k);
      }
    }
  }

  lemma ShownSame(m: Memory, m': Memory, root: nat, base: Word, k: nat, f: nat)
    requires Shown(m, root, base, k, f)
    requires forall n :: Depth(n) <= 4 ==> Resolve(m', root, n) == Resolve(m, root, n)
    ensures Shown(m', root, base, k, f)
  {
    PathOfPage(PageAddr(base, k));
    hide Resolve, PathOf;
  }

  // ---------------------------------------------------------------- the loops

  /** ldr_unmap_pages gives every held frame back, the first page's to the head of the list, and leaves the touched
      pages unmapped. */
  lemma {:induction false} UnmapPagesSpec(s0: Hal, s: Hal, cr3: Word, base: Word, i: nat, fs: seq<nat>)
    requires cr3 / 0x1000 != 0 && Holding(s0, s, cr3 / 0x1000, base, i, fs)
    ensures Holding(s0, UnmapPages(s, cr3, base, |fs|), cr3 / 0x1000, base, i, [])
    ensures UnmapPages(s, cr3, base, |fs|).free == s.free + |fs|
    ensures FreeList(UnmapPages(s, cr3, base, |fs|)) == fs + FreeList(s)
    decreases |fs|
  {
    hide Holding, UnmapPage, Free, FreeList;
    if fs == [] {
    } else {
      var j := |fs| - 1;
      UnmapOne(s0, s, cr3, base, i, fs);
      var (s1, frame) := UnmapPage(s, cr3, PageAddr(base, j));
      HoldingFrameFits(s0, s, cr3 / 0x1000, base, i, fs);
      UnmapPagesSpec(s0, Free(s1, frame), cr3, base, i, fs[..j]);
      assert fs[..j] + ([fs[j]] + FreeList(s)) == fs + FreeList(s);
    }
  }

  lemma HoldingFrameFits(s0: Hal, s: Hal, root: nat, base: Word, i: nat, fs: seq<nat>)
    requires Holding(s0, s, root, base, i, fs)
    ensures |fs| <= i < 0x10_0000_0000
  {
  }

  /** The mapping loop.  On success the pages show fresh, distinct, zeroed frames.  On failure the pages it got through
      are unmapped, no frame is left in the loader's hands, and the pool, now that the
      tables are linked, has no more frames than the pages alone need. */
  lemma {:induction false} MapPagesSpec(s0: Hal, s: Hal, cr3: Word, base: Word, fs: seq<nat>, n: nat)
    requires cr3 / 0x1000 != 0 && Holding(s0, s, cr3 / 0x1000, base, |fs|, fs) && AllZero(s.mem, fs)
    requires |fs| <= n < 0x10_0000_0000
    ensures var root := cr3 / 0x1000;
      var (s', status) := MapPages(s, cr3, base, |fs|, n);
      && (status == Success ==> exists gs :: |gs| == n && Holding(s0, s', root, base, n, gs) && AllZero(s'.mem, gs))
      && (status == Success <==> Mapped(s, cr3, base, |fs|, n) == n)
      && (status != Success ==>
            && status == OutOfMemory
            && Holding(s0, s', root, base, Mapped(s, cr3, base, |fs|, n), [])
            && (s0.base > 0 ==> s'.free <= n))
    decreases n - |fs|
  {
    hide Holding, UnmapPages, Free, MapPage, Alloc, AllZero;
    var root := cr3 / 0x1000;
    var k := |fs|;
    if k == n {
      assert Holding(s0, s, root, base, n, fs) && AllZero(s.mem, fs);
    } else {
      var (s1, frame) := Alloc(s);
      if frame == 0 {
        NoFrame(s0, s, root, base, fs);
        UnmapPagesSpec(s0, s, cr3, base, k, fs);
      } else {
        var (s2, status) := MapPage(s1, cr3, PageAddr(base, k), frame, LOAD_FLAGS);
        if status != Success {
          MapOneFails(s0, s, cr3, base, fs);
          UnmapPagesSpec(s0, Free(s2, frame), cr3, base, k, fs);
        } else {
          MapOneHolds(s0, s, cr3, base, fs);
          MapPagesSpec(s0, s2, cr3, base, fs + [frame / 0x1000], n);
        }
      }
    }
  }

  lemma NoFrame(s0: Hal, s: Hal, root: nat, base: Word, fs: seq<nat>)
    requires Holding(s0, s, root, base, |fs|, fs) && Alloc(s).1 == 0
    ensures Free(Alloc(s).0, 0) == s && (s0.base > 0 ==> s.free == 0)
  {
    EvolvesSound(s0, s, root, PageSet(base, |fs|), FrameSet(fs));
    EvolvesRegion(s0, s, root, PageSet(base, |fs|), FrameSet(fs));
    AllocSpec(s);
    if s.base > 0 { NoneFree(s); }
    hide Holding, PmmOk, Alloc;
  }

  // ---------------------------------------------------------------- conservation

  /** What a load did to the frames: every frame taken is a newly linked table or backs one of the pages. */
  lemma HoldingConserves(s: Hal, s': Hal, root: nat, base: Word, i: nat, gs: seq<nat>)
    requires Holding(s, s', root, base, i, gs)
    ensures Tables(s.mem, root) <= Tables(s'.mem, root)
    ensures Used(s') - Used(s) == (Tables(s'.mem, root) - Tables(s.mem, root)) + FrameSet(gs)
    ensures s'.used == s.used + (|Tables(s'.mem, root)| - |Tables(s.mem, root)|) + |gs|
  {
    hide Evolves, Shown, Tables, Used, FrameSet, PageSet, Resolve, Page;
    EvolvesAccounts(s, s', root, PageSet(base, i), FrameSet(gs));
    FrameCount(gs);
    SetCounts(Used(s), Used(s'), Tables(s.mem, root), Tables(s'.mem, root), FrameSet(gs));
  }

  lemma FrameCount(gs: seq<nat>)
    requires Distinct(gs)
    ensures |FrameSet(gs)| == |gs|
  {
    DistinctCount(gs);
    assert FrameSet(gs) == set k | 0 <= k < |gs| :: gs[k];
  }

  lemma EvolvesAccounts(s: Hal, s': Hal, root: nat, pages: set<Path>, held: set<nat>)
    requires Evolves(s, s', root, pages, held)
    ensures Accounted(s, s', root, held) && s.used == |Used(s)| && s'.used == |Used(s')|
  {
    UsedCount(s);
    UsedCount(s');
    hide Used, Tables, PmmOk, TreeOk, LeafCarriesPolicy;
  }

  lemma SetCounts(u: set<nat>, u': set<nat>, t: set<nat>, t': set<nat>, held: set<nat>)
    requires t <= t' && (t' - t) !! u && held !! u && held !! t' && u' == u + (t' - t) + held
    ensures |u'| == |u| + (|t'| - |t|) + |held|
    ensures u' - u == (t' - t) + held
  {
    assert |t' - t| == |t'| - |t|;
    assert |u + (t' - t)| == |u| + |t' - t|;
  }
}
