/** What a run of the kernel leaves alone: memory outside the pool, and whatever lies behind pages that no request of
    the run changes. */
module Survival {
  import opened Words
  import opened FrameAllocator
  import opened PageTables
  import opened PagingProofs
  import opened Boot
  import opened SectionLoader
  import opened LoaderProofs
  import opened ImageProofs
  import opened Demand
  import opened Reachability
  import opened PefContainer
  import opened PefLoader
  import opened Pe32Loader
  import opened Pe32Proofs
  import opened KernelRuns

  /** No request of the run is about to change one of these pages when its turn comes. */
  ghost predicate LeftAlone(s: Hal, cr3: Word, qs: seq<Request>, pages: set<Path>)
    requires AllWellFormed(qs)
    decreases |qs|
  {
    qs != [] ==> Changed(s, cr3, qs[0]) !! pages && LeftAlone(Perform(s, cr3, qs[0]), cr3, qs[1..], pages)
  }

  /** A frame in other hands keeps its content. */
  ghost predicate FrameKept(s: Hal, s': Hal, root: nat, f: nat) {
    Foreign(s', root, f) && |s'.mem| == |s.mem| && (f < |s.mem| ==> s'.mem[f] == s.mem[f])
  }

  lemma {:induction false} RequestLeaves(s: Hal, cr3: Word, limit: Word, q: Request, f: nat)
    requires Running(s, cr3, limit) && WellFormed(q) && Harmless(s, cr3, limit, q) && Foreign(s, cr3 / 0x1000, f)
    ensures var s' := Perform(s, cr3, q);
      && FrameKept(s, s', cr3 / 0x1000, f)
      && SamePages(s.mem, s'.mem, cr3 / 0x1000, Changed(s, cr3, q))
      && s'.base == s.base && s'.end == s.end
  {
    hide Running, Harmless, WellFormed, Perform, KeptThroughout, Reaching, Evolves, Foreign, SamePages, Changed,
      PagesTaken;
    RunningReaches(s, cr3, limit);
    PerformRuns(s, cr3, limit, q);
    var held := PerformEffect(s, cr3, q);
    EvolvesSound(s, Perform(s, cr3, q), cr3 / 0x1000, Changed(s, cr3, q), held);
    ForeignKept(s, Perform(s, cr3, q), cr3 / 0x1000, Changed(s, cr3, q), held, f);
  }

  /** Over every harmless run a frame in other hands than the page-table manager's, inside the pool or outside it, is
      never written, and pages that no request is about to change show what they showed. */
  lemma {:induction false} RunLeaves(s: Hal, cr3: Word, limit: Word, qs: seq<Request>, pages: set<Path>, f: nat)
    requires Running(s, cr3, limit) && AllWellFormed(qs) && AllHarmless(s, cr3, limit, qs)
    requires LeftAlone(s, cr3, qs, pages) && Foreign(s, cr3 / 0x1000, f)
    ensures FrameKept(s, Run(s, cr3, qs), cr3 / 0x1000, f)
    ensures forall p :: p in pages && Depth(p) == 4 ==>
              Resolve(Run(s, cr3, qs).mem, cr3 / 0x1000, p) == Resolve(s.mem, cr3 / 0x1000, p)
    decreases |qs|
  {
    hide Running, Harmless, WellFormed, Perform, KeptThroughout, Foreign, Changed, Resolve;
    if qs != [] {
      PerformRuns(s, cr3, limit, qs[0]);
      RequestLeaves(s, cr3, limit, qs[0], f);
      RunLeaves(Perform(s, cr3, qs[0]), cr3, limit, qs[1..], pages, f);
    }
  }

  /** So no harmless run writes memory outside the pool, whatever it maps and loads. */
  lemma OutsideKept(s: Hal, cr3: Word, limit: Word, qs: seq<Request>, f: nat)
    requires Running(s, cr3, limit) && AllWellFormed(qs) && AllHarmless(s, cr3, limit, qs)
    requires f < |s.mem| && !(s.base <= f * 0x1000 < s.end)
    ensures |Run(s, cr3, qs).mem| == |s.mem| && Run(s, cr3, qs).mem[f] == s.mem[f]
  {
    assert Foreign(s, cr3 / 0x1000, f);
    hide Running, AllHarmless, Run, Foreign;
    NothingNamed(s, cr3, qs);
    RunLeaves(s, cr3, limit, qs, {}, f);
  }

  lemma {:induction false} NothingNamed(s: Hal, cr3: Word, qs: seq<Request>)
    requires AllWellFormed(qs)
    ensures LeftAlone(s, cr3, qs, {})
    decreases |qs|
  {
    hide WellFormed, Perform, Changed;
    if qs != [] {
      NothingNamed(Perform(s, cr3, qs[0]), cr3, qs[1..]);
    }
  }

  /** A loaded section still reads as its content and zeros after every harmless run none of whose requests is about to
      change one of its pages. */
  lemma SectionSurvives(s: Hal, cr3: Word, limit: Word, h: Header, src: Source, qs: seq<Request>)
    requires CanLoad(s, cr3, h.vmAddress, PageCount(h.vmSize)) && Placed(h) && Covered(h.vmAddress, h.vmSize)
    requires src.Source? && |src.bytes| == h.offsetSize && LoadSection(s, cr3, h, src).1.Loaded?
    requires Running(LoadSection(s, cr3, h, src).0, cr3, limit) && AllWellFormed(qs)
    requires AllHarmless(LoadSection(s, cr3, h, src).0, cr3, limit, qs)
    requires LeftAlone(LoadSection(s, cr3, h, src).0, cr3, qs, PageSet(h.vmAddress, PageCount(h.vmSize)))
    ensures ReadsAs(Run(LoadSection(s, cr3, h, src).0, cr3, qs).mem, cr3 / 0x1000, h.vmAddress, h.vmSize, src.bytes)
  {
    CoveredContent(h);
    hide Holding, LoadSection, PageCount, PageSet, CanLoad, Placed, Cost, Reach, Covered, ContentFits, PoolKept,
      NoFault, Running, AllWellFormed, AllHarmless, LeftAlone, Run, ReadVa;
    var root, n := cr3 / 0x1000, PageCount(h.vmSize);
    var s1 := LoadSection(s, cr3, h, src).0;
    var s2 := Run(s1, cr3, qs);
    LoadSectionSpec(s, cr3, h, src);
    var gs :| |gs| == n && Holding(s, s1, root, h.vmAddress, n, gs);
    forall off | 0 <= off < h.vmSize
      ensures ReadVa(s2.mem, root, Add64(h.vmAddress, off)) == ReadVa(s1.mem, root, Add64(h.vmAddress, off))
    {
      CoveredByte(h.vmAddress, h.vmSize, off);
      ByteSurvives(s, s1, cr3, limit, h.vmAddress, gs, off, qs);
    }
  }

  /** So does a loaded image. */
  lemma ImageSurvives(s: Hal, cr3: Word, limit: Word, l: Loader, qs: seq<Request>)
    requires |l.blob| < 0x1_0000_0000_0000_0000 && Ready(l) && PlacedWell(ParseImage(l.blob))
    requires CanLoad(s, cr3, ParseImage(l.blob).base, PageCount(ParseImage(l.blob).size))
    requires LoadImage(s, cr3, l).2.Loaded?
    requires Running(LoadImage(s, cr3, l).0, cr3, limit) && AllWellFormed(qs)
    requires AllHarmless(LoadImage(s, cr3, l).0, cr3, limit, qs)
    requires var img := ParseImage(l.blob);
      LeftAlone(LoadImage(s, cr3, l).0, cr3, qs, PageSet(img.base, PageCount(img.size)))
    ensures ImageReads(Run(LoadImage(s, cr3, l).0, cr3, qs).mem, cr3 / 0x1000, l.blob, ParseImage(l.blob))
  {
    hide Holding, LoadImage, PageCount, PageSet, CanLoad, CanonicalTargets, Cost, Reach, PoolKept, SectionsNoFault,
      TableOk, ParseImage, AllFit, Painted, Running, AllWellFormed, AllHarmless, LeftAlone, Run, ReadVa, Canonical;
    var root, img := cr3 / 0x1000, ParseImage(l.blob);
    var n := PageCount(img.size);
    var s1 := LoadImage(s, cr3, l).0;
    var s2 := Run(s1, cr3, qs);
    LoadImageSpec(s, cr3, l);
    var gs :| |gs| == n && Holding(s, s1, root, img.base, n, gs);
    forall o | 0 <= o < img.size && Canonical(Add64(img.base, o))
      ensures ReadVa(s2.mem, root, Add64(img.base, o)) == Painted(l.blob, img, |img.sections|, o)
    {
      CoveredByte(img.base, img.size, o);
      ByteSurvives(s, s1, cr3, limit, img.base, gs, o, qs);
    }
  }

  lemma CoveredByte(base: Word, size: Word, off: nat)
    requires Covered(base, size) && off < size
    ensures base % 0x1000 + off < PageCount(size) * 0x1000
  {
    hide PageCount;
  }

  lemma ByteSurvives(s: Hal, s1: Hal, cr3: Word, limit: Word, base: Word, gs: seq<nat>, off: nat, qs: seq<Request>)
    requires Holding(s, s1, cr3 / 0x1000, base, |gs|, gs) && base % 0x1000 + off < |gs| * 0x1000
    requires Running(s1, cr3, limit) && AllWellFormed(qs) && AllHarmless(s1, cr3, limit, qs)
    requires LeftAlone(s1, cr3, qs, PageSet(base, |gs|))
    ensures ReadVa(Run(s1, cr3, qs).mem, cr3 / 0x1000, Add64(base, off))
      == ReadVa(s1.mem, cr3 / 0x1000, Add64(base, off))
  {
    hide Evolves, Resolve, PathOf, Page, Add64, FrameByte, IsDir, PageSet, FrameSet, Running, AllWellFormed,
      AllHarmless, LeftAlone, Run, Foreign, Canonical;
    var root := cr3 / 0x1000;
    HoldingInMemory(s, s1, root, base, |gs|, gs);
    VaOffset(base, off);
    var k := (base % 0x1000 + off) / 0x1000;
    assert Shown(s1.mem, root, base, k, gs[k]);
    FrameIn(gs, k);
    HeldForeign(s, s1, root, PageSet(base, |gs|), FrameSet(gs), gs[k]);
    RunLeaves(s1, cr3, limit, qs, PageSet(base, |gs|), gs[k]);
    PageIn(base, k, |gs|);
  }

  lemma PageIn(base: Word, k: nat, n: nat)
    requires k < n
    ensures Page(base, k) in PageSet(base, n) && Depth(Page(base, k)) == 4
  {
    PageIs(base, k);
    PathDepth(PageAddr(base, k));
    hide PathOf, PageAddr, Depth;
  }

  /** A frame just taken is in other hands than the page-table manager's. */
  lemma HeldForeign(s: Hal, s': Hal, root: nat, pages: set<Path>, held: set<nat>, f: nat)
    requires Evolves(s, s', root, pages, held) && f in held
    ensures Foreign(s', root, f)
  {
    HeldNotForeign(s, s', root, pages, held, f);
    hide Evolves, Used, Tables;
  }
}
