/** The kernel reaches tables, free frames and frames in use by their physical addresses, through the translation it is
    running on.  That stays right while a range of pages is mapped exactly when none of them is one the pool is reached
    by. */
module Reachability {
  import opened Words
  import opened FrameAllocator
  import opened PageTables
  import opened PagingManager
  import opened PagingProofs
  import opened SectionLoader
  import opened LoaderProofs
  import opened Demand

  /** The page whose own frame belongs to the pool. */
  predicate PoolPage(s: Hal, p: Path) {
    s.base <= FirstPage(p) * 0x1000 < s.end
  }

  /** Every frame of the pool is reached at its physical address, and by the kernel only. */
  ghost predicate PoolKept(s: Hal, root: nat) {
    && s.end <= 0x8000_0000_0000
    && forall p :: Depth(p) == 4 && PoolPage(s, p) ==> Resolve(s.mem, root, p) == IdentityLeaf(p)
  }

  /** None of the first n pages from base is one the pool is reached by. */
  ghost predicate Clear(s: Hal, base: Word, n: nat) {
    forall k :: 0 <= k < n ==> !PoolPage(s, Page(base, k))
  }

  /** The kernel's tables are sound, and it reaches them throughout a load of n pages. */
  ghost predicate CanLoad(s: Hal, cr3: Word, base: Word, n: nat) {
    && cr3 / 0x1000 != 0
    && Sound(s, cr3 / 0x1000)
    && PoolKept(s, cr3 / 0x1000)
    && Clear(s, base, Reach(s, cr3 / 0x1000, base, n))
  }

  /** The pool is reached before, between and after the steps of a roll-back. */
  ghost predicate UnmapKept(s: Hal, cr3: Word, base: Word, n: nat)
    decreases n
  {
    && PoolKept(s, cr3 / 0x1000)
    && (n > 0 ==>
          var (s1, frame) := UnmapPage(s, cr3, PageAddr(base, n - 1));
          PoolKept(s1, cr3 / 0x1000) && UnmapKept(Free(s1, frame), cr3, base, n - 1))
  }

  /** The pool is reached before, between and after the steps of the mapping loop, its roll-back included. */
  ghost predicate LoopKept(s: Hal, cr3: Word, base: Word, k: nat, n: nat)
    requires k <= n
    decreases n - k
  {
    && PoolKept(s, cr3 / 0x1000)
    && (k < n ==>
          var (s1, frame) := Alloc(s);
          if frame == 0 then UnmapKept(Free(s1, frame), cr3, base, k)
          else
            var (s2, status) := MapPage(s1, cr3, PageAddr(base, k), frame, LOAD_FLAGS);
            && PoolKept(s1, cr3 / 0x1000)
            && (if status == Success then LoopKept(s2, cr3, base, k + 1, n)
                else PoolKept(s2, cr3 / 0x1000) && UnmapKept(Free(s2, frame), cr3, base, k)))
  }

  // ---------------------------------------------------------------- steps

  /** A step that changes no page the pool is reached by. */
  lemma EvolvesPool(s: Hal, s': Hal, root: nat, pages: set<Path>, held: set<nat>)
    requires Evolves(s, s', root, pages, held) && forall p :: p in pages ==> !PoolPage(s, p)
    ensures PoolKept(s', root) <==> PoolKept(s, root)
  {
    EvolvesParts(s, s', root, pages, held);
    EvolvesRegion(s, s', root, pages, held);
    hide Evolves, Sound, Resolve, FirstPage, DirsKept, Foreign, IdentityLeaf;
  }

  lemma ClearSame(s: Hal, s': Hal, base: Word, n: nat)
    requires s'.base == s.base && s'.end == s.end
    ensures Clear(s', base, n) <==> Clear(s, base, n)
  {
    hide Page, FirstPage;
  }

  /** While pages are mapped or rolled back the pool is reached exactly when none of them is a page of the pool. */
  lemma HoldingPool(s0: Hal, s: Hal, root: nat, base: Word, i: nat, fs: seq<nat>)
    requires Holding(s0, s, root, base, i, fs) && PoolKept(s0, root)
    ensures s.base == s0.base && s.end == s0.end
    ensures PoolKept(s, root) <==> Clear(s0, base, i)
  {
    HoldingEvolves(s0, s, root, base, i, fs);
    EvolvesRegion(s0, s, root, PageSet(base, i), FrameSet(fs));
    hide Evolves, PoolKept, PageSet, FrameSet, Clear;
    if Clear(s0, base, i) {
      ClearPages(s0, base, i);
      EvolvesPool(s0, s, root, PageSet(base, i), FrameSet(fs));
    } else {
      NotClear(s0, s, root, base, i, fs);
    }
  }

  lemma ClearPages(s: Hal, base: Word, n: nat)
    requires Clear(s, base, n)
    ensures forall p :: p in PageSet(base, n) ==> !PoolPage(s, p)
  {
    hide Page, PoolPage;
  }

  lemma NotClear(s0: Hal, s: Hal, root: nat, base: Word, i: nat, fs: seq<nat>)
    requires Holding(s0, s, root, base, i, fs) && !Clear(s0, base, i) && s.base == s0.base && s.end == s0.end
    ensures !PoolKept(s, root)
  {
    hide Evolves, Resolve, IsDir, FirstPage, PathOf, PageAddr;
    var k :| 0 <= k < i && PoolPage(s0, Page(base, k));
    PathDepth(PageAddr(base, k));
    assert PoolPage(s, Page(base, k));
    if k < |fs| {
      assert Shown(s.mem, root, base, k, fs[k]);
    }
    assert Resolve(s.mem, root, Page(base, k)) != IdentityLeaf(Page(base, k));
  }

  /** The roll-back of a holding. */
  lemma {:induction false} UnmapKeptIs(s0: Hal, s: Hal, cr3: Word, base: Word, i: nat, fs: seq<nat>)
    requires cr3 / 0x1000 != 0 && Holding(s0, s, cr3 / 0x1000, base, i, fs) && PoolKept(s0, cr3 / 0x1000)
    ensures UnmapKept(s, cr3, base, |fs|) <==> Clear(s0, base, i)
    decreases |fs|
  {
    hide Holding, PoolKept, Clear, UnmapPage, Free, PageAddr;
    HoldingPool(s0, s, cr3 / 0x1000, base, i, fs);
    if fs != [] && Clear(s0, base, i) {
      var j := |fs| - 1;
      var (s1, frame) := UnmapPage(s, cr3, PageAddr(base, j));
      UnmapOne(s0, s, cr3, base, i, fs);
      HoldingFrameFits(s0, s, cr3 / 0x1000, base, i, fs);
      UnmapPool(s0, s, cr3, base, i, fs);
      UnmapKeptIs(s0, Free(s1, frame), cr3, base, i, fs[..j]);
    }
  }

  lemma UnmapPool(s0: Hal, s: Hal, cr3: Word, base: Word, i: nat, fs: seq<nat>)
    requires cr3 / 0x1000 != 0 && Holding(s0, s, cr3 / 0x1000, base, i, fs) && fs != []
    requires PoolKept(s, cr3 / 0x1000) && Clear(s0, base, i) && s.base == s0.base && s.end == s0.end
    ensures PoolKept(UnmapPage(s, cr3, PageAddr(base, |fs| - 1)).0, cr3 / 0x1000)
  {
    HoldingFrameFits(s0, s, cr3 / 0x1000, base, i, fs);
    HoldingSound(s0, s, cr3 / 0x1000, base, i, fs);
    hide Holding, UnmapPage, PathOf, FirstPage, PageAddr, PoolKept, Sound;
    PageIs(base, |fs| - 1);
    assert !PoolPage(s0, Page(base, |fs| - 1));
    UnmapElsewhere(s, cr3, PageAddr(base, |fs| - 1));
  }

  lemma HoldingSound(s0: Hal, s: Hal, root: nat, base: Word, i: nat, fs: seq<nat>)
    requires Holding(s0, s, root, base, i, fs)
    ensures Sound(s, root) && |fs| <= i
  {
    EvolvesSound(s0, s, root, PageSet(base, i), FrameSet(fs));
    hide Evolves, Resolve, Sound;
  }

  /** Unmapping a page the pool is not reached by. */
  lemma UnmapElsewhere(s: Hal, cr3: Word, va: Word)
    requires cr3 / 0x1000 != 0 && Sound(s, cr3 / 0x1000) && PoolKept(s, cr3 / 0x1000) && !PoolPage(s, PathOf(va))
    ensures PoolKept(UnmapPage(s, cr3, va).0, cr3 / 0x1000)
  {
    hide Evolves, UnmapPage, Resolve, PoolPage, PathOf, IsDir, PlaceAt, SameShape, PoolKept, Sound;
    UnmapSpec(s, cr3, va);
    var root, s1 := cr3 / 0x1000, UnmapPage(s, cr3, va).0;
    if Evolves(s, s1, root, {PathOf(va)}, {}) {
      EvolvesPool(s, s1, root, {PathOf(va)}, {});
    } else {
      EvolvesPool(s, s1, root, {}, {});
    }
  }

  // ---------------------------------------------------------------- the loop

  lemma ClearLess(s: Hal, base: Word, k: nat, n: nat)
    requires Clear(s, base, n) && k <= n
    ensures Clear(s, base, k)
  {
    hide PoolPage, Page;
  }

  /** From k pages on. */
  lemma {:induction false} LoopKeptIs(s0: Hal, s: Hal, cr3: Word, base: Word, fs: seq<nat>, n: nat)
    requires cr3 / 0x1000 != 0 && Holding(s0, s, cr3 / 0x1000, base, |fs|, fs) && PoolKept(s0, cr3 / 0x1000)
    requires |fs| <= n < 0x10_0000_0000
    ensures LoopKept(s, cr3, base, |fs|, n) <==> Clear(s0, base, Mapped(s, cr3, base, |fs|, n))
    decreases n - |fs|
  {
    hide Holding, Free, MapPage, Alloc, AllZero, PoolKept, Clear, PageAddr, UnmapKept;
    var root, k := cr3 / 0x1000, |fs|;
    HoldingPool(s0, s, root, base, k, fs);
    if k < n {
      var (s1, frame) := Alloc(s);
      if frame == 0 {
        NoFrame(s0, s, root, base, fs);
        UnmapKeptIs(s0, s, cr3, base, k, fs);
      } else {
        var (s2, status) := MapPage(s1, cr3, PageAddr(base, k), frame, LOAD_FLAGS);
        OneStepPool(s0, s, cr3, base, fs);
        if status != Success {
          MapOneFails(s0, s, cr3, base, fs);
          UnmapKeptIs(s0, Free(s2, frame), cr3, base, k, fs);
        } else {
          MapOneHolds(s0, s, cr3, base, fs);
          LoopKeptIs(s0, s2, cr3, base, fs + [frame / 0x1000], n);
          if Clear(s0, base, Mapped(s2, cr3, base, k + 1, n)) {
            ClearLess(s0, base, k, Mapped(s2, cr3, base, k + 1, n));
          }
        }
      }
    }
  }

  /** Taking a frame, and a walk that fails, change no page. */
  lemma OneStepPool(s0: Hal, s: Hal, cr3: Word, base: Word, fs: seq<nat>)
    requires cr3 / 0x1000 != 0 && Holding(s0, s, cr3 / 0x1000, base, |fs|, fs) && |fs| + 1 < 0x10_0000_0000
    requires Alloc(s).1 != 0
    ensures var root := cr3 / 0x1000;
      var (s1, frame) := Alloc(s);
      var (s2, status) := MapPage(s1, cr3, PageAddr(base, |fs|), frame, LOAD_FLAGS);
      && (PoolKept(s1, root) <==> PoolKept(s, root))
      && (status != Success ==> (PoolKept(s2, root) <==> PoolKept(s, root)))
  {
    hide *;
    var root := cr3 / 0x1000;
    MapOne(s0, s, cr3, base, fs);
    var (s1, frame) := Alloc(s);
    EvolvesPool(s, s1, root, {}, {frame / 0x1000});
    var (s2, status) := MapPage(s1, cr3, PageAddr(base, |fs|), frame, LOAD_FLAGS);
    if status != Success {
      EvolvesPool(s1, s2, root, {}, {});
    }
  }

  /** From a kernel that reaches its pool, the pool stays reached throughout the mapping loop and its roll-back exactly
      when none of the pages the free frames pay for is one the pool is reached by. */
  lemma LoopExact(s: Hal, cr3: Word, base: Word, n: nat)
    requires cr3 / 0x1000 != 0 && Sound(s, cr3 / 0x1000) && PoolKept(s, cr3 / 0x1000) && n < 0x10_0000_0000
    ensures LoopKept(s, cr3, base, 0, n) <==> Clear(s, base, Reach(s, cr3 / 0x1000, base, n))
  {
    hide *;
    HoldingNothing(s, cr3 / 0x1000, base);
    LoopKeptIs(s, s, cr3, base, [], n);
    LoadExact(s, cr3, base, n);
  }
}
