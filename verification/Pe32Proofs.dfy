/** What PE32Loader::LoadImage promises. */
module Pe32Proofs {
  import opened Words
  import opened Bytes
  import opened PhysicalMemory
  import opened FrameAllocator
  import opened PageTables
  import opened PagingManager
  import opened PagingProofs
  import opened SectionLoader
  import opened LoaderProofs
  import opened ImageProofs
  import opened Demand
  import opened Reachability
  import opened PefLoader
  import opened Pe32Loader

  /** The image's pages cover it, and no section with content targets address 0, where the copy refuses to write.  The
      loader checks neither; a page-aligned base that is not 0 and an image that stays below 2^64 have both. */
  predicate PlacedFlat(img: Image) {
    && img.size <= 0x400_0000
    && Covered(img.base, img.size)
    && forall j :: 0 <= j < |img.sections| && img.sections[j].rawSize > 0 ==> Add64(img.base, img.sections[j].va) != 0
  }

  /** Every byte of content is copied to an address the processor accepts, from section i on. */
  ghost predicate CanonicalTargets(img: Image, i: nat) {
    forall j :: i <= j < |img.sections| && img.sections[j].rawSize > 0 ==>
      CanonicalRange(img.base, img.sections[j].va, img.sections[j].va + img.sections[j].rawSize)
  }

  /** Both; the loader does not check the addresses either. */
  ghost predicate PlacedWell(img: Image) {
    PlacedFlat(img) && CanonicalTargets(img, 0)
  }

  /** The held frames show the first i sections. */
  ghost predicate ImageShows(m: Memory, gs: seq<nat>, blob: seq<Byte>, img: Image, i: nat) {
    && AllFit(img, |blob|, i) && InMemory(m, gs)
    && img.base % 0x1000 + img.size <= |gs| * 0x1000
    && forall o :: 0 <= o < img.size ==> ShowsAt(m, gs, blob, img, i, o)
  }

  ghost predicate ShowsAt(m: Memory, gs: seq<nat>, blob: seq<Byte>, img: Image, i: nat, o: nat)
    requires AllFit(img, |blob|, i) && InMemory(m, gs) && o < img.size
    requires img.base % 0x1000 + img.size <= |gs| * 0x1000
  {
    ImageByte(m, gs, img.base % 0x1000 + o) == Painted(blob, img, i, o)
  }

  /** One fitting section with content is laid over the image. */
  lemma CopySection(s0: Hal, s: Hal, root: nat, blob: seq<Byte>, img: Image, gs: seq<nat>, i: nat)
    requires |blob| < 0x1_0000_0000_0000_0000 && i < |img.sections| && PlacedWell(img)
    requires Holding(s0, s, root, img.base, |gs|, gs) && ImageShows(s.mem, gs, blob, img, i)
    requires img.sections[i].rawSize > 0 && SectionFits(img.sections[i], img.size, |blob|)
    ensures var sec := img.sections[i];
      var m' := CopySafe(s.mem, root, blob[sec.rawAt..sec.rawAt + sec.rawSize], Add64(img.base, sec.va),
                         Sub32(img.size, sec.va));
      && NoFault(s.mem, root, blob[sec.rawAt..sec.rawAt + sec.rawSize], Add64(img.base, sec.va), 0)
      && Holding(s0, s.(mem := m'), root, img.base, |gs|, gs)
      && ImageShows(m', gs, blob, img, i + 1)
  {
    var sec := img.sections[i];
    var src := blob[sec.rawAt..sec.rawAt + sec.rawSize];
    SectionTarget(s.mem, root, img, sec, |blob|, src);
    SectionBounds(s.mem, gs, blob, img, i);
    hide *;
    LaySection(s0, s, root, blob, img, gs, i, src);
  }

  lemma LaySection(s0: Hal, s: Hal, root: nat, blob: seq<Byte>, img: Image, gs: seq<nat>, i: nat, src: seq<Byte>)
    requires i < |img.sections| && Holding(s0, s, root, img.base, |gs|, gs) && ImageShows(s.mem, gs, blob, img, i)
    requires var sec := img.sections[i];
      && SectionFits(sec, img.size, |blob|) && sec.rawSize > 0
      && sec.rawAt + sec.rawSize <= |blob| && src == blob[sec.rawAt..sec.rawAt + sec.rawSize]
      && img.base % 0x1000 + sec.va + sec.rawSize <= |gs| * 0x1000
      && CanonicalRange(img.base, sec.va, sec.va + sec.rawSize)
    ensures NoFault(s.mem, root, src, Add64(img.base, img.sections[i].va), 0)
    ensures var m' := CopyFrom(s.mem, root, src, Add64(img.base, img.sections[i].va), 0);
      Holding(s0, s.(mem := m'), root, img.base, |gs|, gs) && ImageShows(m', gs, blob, img, i + 1)
  {
    hide *;
    CopyImage(s0, s, root, img.base, gs, src, img.sections[i].va, 0);
    PaintNext(s.mem, CopyFrom(s.mem, root, src, Add64(img.base, img.sections[i].va), 0), gs, blob, img, i);
  }

  lemma SectionBounds(m: Memory, gs: seq<nat>, blob: seq<Byte>, img: Image, i: nat)
    requires i < |img.sections| && ImageShows(m, gs, blob, img, i)
    requires img.sections[i].rawSize > 0 && SectionFits(img.sections[i], img.size, |blob|)
    ensures img.base % 0x1000 + img.sections[i].va + img.sections[i].rawSize <= |gs| * 0x1000
  {
  }

  lemma SectionTarget(m: Memory, root: nat, img: Image, sec: Section, size: nat, src: seq<Byte>)
    requires img.size <= 0x400_0000 && Add64(img.base, sec.va) != 0
    requires sec.rawSize > 0 && SectionFits(sec, img.size, size) && |src| == sec.rawSize
    ensures CopySafe(m, root, src, Add64(img.base, sec.va), Sub32(img.size, sec.va))
      == CopyFrom(m, root, src, Add64(img.base, sec.va), 0)
  {
    hide CopyFrom, Add64;
    assert Sub32(img.size, sec.va) == img.size - sec.va;
  }

  /** Laying section i over the image of the first i sections gives the image of the first i + 1. */
  lemma PaintNext(m: Memory, m': Memory, gs: seq<nat>, blob: seq<Byte>, img: Image, i: nat)
    requires i < |img.sections| && ImageShows(m, gs, blob, img, i) && InMemory(m', gs)
    requires SectionFits(img.sections[i], img.size, |blob|)
    requires var sec := img.sections[i];
      var at := img.base % 0x1000 + sec.va;
      forall o :: 0 <= o < |gs| * 0x1000 ==>
        ImageByte(m', gs, o) ==
          if at <= o < at + sec.rawSize then blob[sec.rawAt..sec.rawAt + sec.rawSize][o - at] else ImageByte(m, gs, o)
    ensures ImageShows(m', gs, blob, img, i + 1)
  {
    hide ImageByte;
    var k := i + 1;
    forall o | 0 <= o < img.size
      ensures ShowsAt(m', gs, blob, img, k, o)
    {
      assert ShowsAt(m, gs, blob, img, i, o);
    }
  }

  lemma SkipSection(m: Memory, gs: seq<nat>, blob: seq<Byte>, img: Image, i: nat)
    requires i < |img.sections| && ImageShows(m, gs, blob, img, i) && img.sections[i].rawSize == 0
    ensures ImageShows(m, gs, blob, img, i + 1)
  {
    hide ImageByte;
    var k := i + 1;
    forall o | 0 <= o < img.size
      ensures ShowsAt(m, gs, blob, img, k, o)
    {
      assert ShowsAt(m, gs, blob, img, i, o);
    }
  }

  /** The section loop copies while sections fit, and finishes exactly when all of them do. */
  lemma {:induction false} CopySectionsSpec(s0: Hal, s: Hal, root: nat, blob: seq<Byte>, img: Image, gs: seq<nat>,
                                            i: nat)
    requires |blob| < 0x1_0000_0000_0000_0000 && i <= |img.sections| && PlacedWell(img)
    requires Holding(s0, s, root, img.base, |gs|, gs) && ImageShows(s.mem, gs, blob, img, i)
    ensures var (m', ok) := CopySections(s.mem, root, blob, img, i);
      && Holding(s0, s.(mem := m'), root, img.base, |gs|, gs)
      && SectionsNoFault(s.mem, root, blob, img, i)
      && (ok <==> AllFit(img, |blob|, |img.sections|))
      && (ok ==> ImageShows(m', gs, blob, img, |img.sections|))
    decreases |img.sections| - i
  {
    hide Holding, CopySafe, ImageByte, InMemory, Covered, Painted, SectionChecks, NoFault;
    if i < |img.sections| {
      var sec := img.sections[i];
      if sec.rawSize == 0 {
        SkipSection(s.mem, gs, blob, img, i);
        CopySectionsSpec(s0, s, root, blob, img, gs, i + 1);
      } else {
        ChecksExact(sec, img.size, |blob|);
        if SectionChecks(sec, img.size, |blob|) {
          CopySection(s0, s, root, blob, img, gs, i);
          var m' := CopySafe(s.mem, root, blob[sec.rawAt..sec.rawAt + sec.rawSize], Add64(img.base, sec.va),
                             Sub32(img.size, sec.va));
          CopySectionsSpec(s0, s.(mem := m'), root, blob, img, gs, i + 1);
        }
      }
    }
  }

  /** A loader constructed without complaint is ready as soon as its section table lies inside the blob. */
  lemma ConstructedReady(blob: seq<Byte>)
    requires !Construct(blob).bad
    ensures |blob| >= 248
    ensures Ready(Construct(blob)) <==> TableOk(blob)
    ensures TableOk(blob) ==> 1 <= ParseImage(blob).size <= 0x400_0000
  {
  }

  /** Every byte of the image at an address the processor accepts reads as the last section in table order that covers
      it, else zero. */
  ghost predicate ImageReads(m: Memory, root: nat, blob: seq<Byte>, img: Image) {
    && AllFit(img, |blob|, |img.sections|)
    && forall o :: 0 <= o < img.size && Canonical(Add64(img.base, o)) ==>
         ReadVa(m, root, Add64(img.base, o)) == Painted(blob, img, |img.sections|, o)
  }

  lemma ShownImageReads(s0: Hal, s: Hal, root: nat, blob: seq<Byte>, img: Image, gs: seq<nat>)
    requires ImageShows(s.mem, gs, blob, img, |img.sections|) && Holding(s0, s, root, img.base, |gs|, gs)
    ensures ImageReads(s.mem, root, blob, img)
  {
    hide Holding, ImageByte, ReadVa, Painted, AllFit;
    forall o | 0 <= o < img.size && Canonical(Add64(img.base, o))
      ensures ReadVa(s.mem, root, Add64(img.base, o)) == Painted(blob, img, |img.sections|, o)
    {
      assert ShowsAt(s.mem, gs, blob, img, |img.sections|, o);
      ReadImage(s0, s, root, img.base, gs, o);
    }
  }

  lemma {:induction false} NoFaultCanonical(m: Memory, root: nat, src: seq<Byte>, va: Word, k: nat)
    requires NoFault(m, root, src, va, k)
    ensures forall j :: k <= j < |src| ==> Canonical(Add64(va, j))
    decreases |src| - k
  {
    hide WriteVa, Add64, Canonical;
    if k < |src| {
      NoFaultCanonical(WriteVa(m, root, Add64(va, k), src[k]), root, src, va, k + 1);
      assert Writable(m, root, Add64(va, k));
    }
  }

  lemma {:induction false} SectionsCanonical(m: Memory, root: nat, blob: seq<Byte>, img: Image, i: nat)
    requires |blob| < 0x1_0000_0000_0000_0000 && PlacedFlat(img) && AllFit(img, |blob|, |img.sections|)
    requires SectionsNoFault(m, root, blob, img, i)
    ensures CanonicalTargets(img, i)
    decreases |img.sections| - i
  {
    hide CopySafe, NoFault, Covered, SectionChecks, Canonical, CanonicalRange;
    if i < |img.sections| {
      var sec := img.sections[i];
      if sec.rawSize == 0 {
        SectionsCanonical(m, root, blob, img, i + 1);
      } else {
        ChecksExact(sec, img.size, |blob|);
        var src, va := blob[sec.rawAt..sec.rawAt + sec.rawSize], Add64(img.base, sec.va);
        NoFaultCanonical(m, root, src, va, 0);
        TargetCanonical(img, sec, src);
        SectionsCanonical(CopySafe(m, root, src, va, Sub32(img.size, sec.va)), root, blob, img, i + 1);
      }
    }
  }

  lemma TargetCanonical(img: Image, sec: Section, src: seq<Byte>)
    requires |src| == sec.rawSize && forall j :: 0 <= j < |src| ==> Canonical(Add64(Add64(img.base, sec.va), j))
    ensures CanonicalRange(img.base, sec.va, sec.va + sec.rawSize)
  {
    hide Canonical;
    forall j | sec.va <= j < sec.va + sec.rawSize
      ensures Canonical(Add64(img.base, j))
    {
      assert Add64(Add64(img.base, sec.va), j - sec.va) == Add64(img.base, j);
    }
  }

  /** Once the pages of an image whose sections fit are mapped, copying them faults nowhere exactly when every byte of
      content goes to an address the processor accepts. */
  lemma ImageFaults(s0: Hal, s: Hal, root: nat, blob: seq<Byte>, img: Image, gs: seq<nat>)
    requires |blob| < 0x1_0000_0000_0000_0000 && PlacedFlat(img) && AllFit(img, |blob|, |img.sections|)
    requires Holding(s0, s, root, img.base, |gs|, gs) && AllZero(s.mem, gs) && |gs| == PageCount(img.size)
    ensures SectionsNoFault(s.mem, root, blob, img, 0) <==> CanonicalTargets(img, 0)
  {
    hide Holding, AllZero, SectionsNoFault, Covered, CanonicalRange, CopySections, ImageShows;
    if CanonicalTargets(img, 0) {
      EmptyShows(s.mem, gs, blob, img);
      CopySectionsSpec(s0, s, root, blob, img, gs, 0);
    }
    if SectionsNoFault(s.mem, root, blob, img, 0) {
      SectionsCanonical(s.mem, root, blob, img, 0);
    }
  }

  /** PE32Loader::LoadImage on a ready loader, when the pool is reached throughout.  It succeeds exactly when every
      section fits and the free frames are at least the pages plus the tables missing for them; then the copies fault
      nowhere and the image reads as its sections say.  Otherwise exactly the pages the free frames paid for are
      unmapped and no frame is left in its hands. */
  lemma LoadImageSpec(s: Hal, cr3: Word, l: Loader)
    requires |l.blob| < 0x1_0000_0000_0000_0000 && Ready(l) && PlacedWell(ParseImage(l.blob))
    requires CanLoad(s, cr3, ParseImage(l.blob).base, PageCount(ParseImage(l.blob).size))
    ensures var root, img := cr3 / 0x1000, ParseImage(l.blob);
      var n := PageCount(img.size);
      var (s', l', r) := LoadImage(s, cr3, l);
      && PoolKept(s', root) && s'.base == s.base && s'.end == s.end
      && r == (if s.free < Cost(s.mem, root, img.base, 0, n) then Failed(OutOfMemory)
               else if AllFit(img, |l.blob|, |img.sections|) then Loaded(img.base) else Failed(InvalidData))
      && (r.Loaded? ==>
            && l' == l.(image := img.base)
            && SectionsNoFault(MapPages(s, cr3, img.base, 0, n).0.mem, root, l.blob, img, 0)
            && ImageReads(s'.mem, root, l.blob, img)
            && (exists gs :: |gs| == n && Holding(s, s', root, img.base, n, gs)))
      && (r.Failed? ==>
            && l' == l
            && (r.status == OutOfMemory && s.base > 0 ==> s'.free <= n)
            && Holding(s, s', root, img.base, Reach(s, root, img.base, n), []))
  {
    var root, img := cr3 / 0x1000, ParseImage(l.blob);
    var n := PageCount(img.size);
    CountBound(img.size);
    hide Holding, CopySections, MapPages, UnmapPages, AllZero, PageCount, ParseImage, Ready, ImageReads, AllFit,
      ImageShows, Cost, Reach, Mapped, PoolKept, Clear, Sound, SectionsNoFault, CanonicalTargets, Covered;
    HoldingNothing(s, root, img.base);
    MapPagesSpec(s, s, cr3, img.base, [], n);
    LoadExact(s, cr3, img.base, n);
    var (s1, status) := MapPages(s, cr3, img.base, 0, n);
    if status == Success {
      var gs :| |gs| == n && Holding(s, s1, root, img.base, n, gs) && AllZero(s1.mem, gs);
      EmptyShows(s1.mem, gs, l.blob, img);
      CopySectionsSpec(s, s1, root, l.blob, img, gs, 0);
      var (m, ok) := CopySections(s1.mem, root, l.blob, img, 0);
      var s2 := s1.(mem := m);
      if ok {
        ShownImageReads(s, s2, root, l.blob, img, gs);
        HoldingPool(s, s2, root, img.base, n, gs);
      } else {
        UnmapPagesSpec(s, s2, cr3, img.base, n, gs);
        HoldingPool(s, UnmapPages(s2, cr3, img.base, n), root, img.base, n, []);
      }
    } else {
      HoldingPool(s, s1, root, img.base, Reach(s, root, img.base, n), []);
    }
  }

  /** The pool is reached before, between and after the steps of LoadImage: the mapping loop with its roll-back, the
      copies, and the roll-back after a section that does not fit. */
  ghost predicate ImageKept(s: Hal, cr3: Word, l: Loader)
    requires |l.blob| < 0x1_0000_0000_0000_0000 && Ready(l)
  {
    var img := ParseImage(l.blob);
    var n := PageCount(img.size);
    && LoopKept(s, cr3, img.base, 0, n)
    && var (s1, status) := MapPages(s, cr3, img.base, 0, n);
    (status == Success ==>
       var (m, ok) := CopySections(s1.mem, cr3 / 0x1000, l.blob, img, 0);
       && PoolKept(s1.(mem := m), cr3 / 0x1000)
       && (!ok ==> UnmapKept(s1.(mem := m), cr3, img.base, n)))
  }

  /** Exactly when none of the pages the free frames pay for is one the pool is reached by; the loader does not check.
      */
  lemma ImageKeptExact(s: Hal, cr3: Word, l: Loader)
    requires |l.blob| < 0x1_0000_0000_0000_0000 && Ready(l) && PlacedWell(ParseImage(l.blob))
    requires cr3 / 0x1000 != 0 && Sound(s, cr3 / 0x1000) && PoolKept(s, cr3 / 0x1000)
    ensures var img := ParseImage(l.blob);
      ImageKept(s, cr3, l) <==> Clear(s, img.base, Reach(s, cr3 / 0x1000, img.base, PageCount(img.size)))
  {
    var root, img := cr3 / 0x1000, ParseImage(l.blob);
    var n := PageCount(img.size);
    CountBound(img.size);
    hide Holding, CopySections, MapPages, AllZero, PageCount, ParseImage, Ready, AllFit, ImageShows, Cost, Mapped,
      PoolKept, Clear, Sound, SectionsNoFault, CanonicalTargets, Covered, LoopKept, UnmapKept;
    LoopExact(s, cr3, img.base, n);
    HoldingNothing(s, root, img.base);
    MapPagesSpec(s, s, cr3, img.base, [], n);
    LoadExact(s, cr3, img.base, n);
    var (s1, status) := MapPages(s, cr3, img.base, 0, n);
    if status == Success {
      var gs :| |gs| == n && Holding(s, s1, root, img.base, n, gs) && AllZero(s1.mem, gs);
      EmptyShows(s1.mem, gs, l.blob, img);
      CopySectionsSpec(s, s1, root, l.blob, img, gs, 0);
      var s2 := s1.(mem := CopySections(s1.mem, root, l.blob, img, 0).0);
      HoldingPool(s, s2, root, img.base, n, gs);
      UnmapKeptIs(s, s2, cr3, img.base, n, gs);
    }
  }

  lemma EmptyShows(m: Memory, gs: seq<nat>, blob: seq<Byte>, img: Image)
    requires AllZero(m, gs) && PlacedFlat(img) && |gs| == PageCount(img.size)
    ensures ImageShows(m, gs, blob, img, 0)
  {
    hide ImageByte, AllZero;
    ZeroImage(m, gs);
  }

  /** A loader that has not loaded and is not ready fails, and nothing changes. */
  lemma NotReadyFails(s: Hal, cr3: Word, l: Loader)
    requires |l.blob| < 0x1_0000_0000_0000_0000 && l.image == 0
    ensures !Ready(l) ==> LoadImage(s, cr3, l) == (s, l, Failed(InvalidData))
    ensures l.bad ==> LoadImage(s, cr3, l) == (s, l, Failed(InvalidData))
  {
    hide TableOk, ParseImage;
  }

  /** A second call on a loaded image changes nothing and returns the same address, exactly when the base is not 0; an
      image loaded at 0 is forgotten at once. */
  lemma LoadImageTwice(s: Hal, cr3: Word, l: Loader, t: Hal)
    requires |l.blob| < 0x1_0000_0000_0000_0000 && Ready(l) && LoadImage(s, cr3, l).2.Loaded?
    ensures var (s', l', r) := LoadImage(s, cr3, l);
      if ParseImage(l.blob).base != 0 then LoadImage(t, cr3, l') == (t, l', r) else l' == l
  {
    hide MapPages, CopySections, ParseImage, TableOk;
  }
}
