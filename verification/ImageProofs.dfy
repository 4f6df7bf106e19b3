/** Bytes of a loaded image: copying through the running translation into the frames a loader holds. */
module ImageProofs {
  import opened Words
  import opened Bytes
  import opened PhysicalMemory
  import opened FrameAllocator
  import opened PageTables
  import opened PagingProofs
  import opened Translation
  import opened SectionLoader
  import opened LoaderProofs

  /** Byte o of the held frames taken as one stretch of memory. */
  function ImageByte(m: Memory, gs: seq<nat>, o: nat): Byte
    requires o / 0x1000 < |gs| && gs[o / 0x1000] < |m|
  {
    FrameByte(m[gs[o / 0x1000]], o % 0x1000)
  }

  predicate InMemory(m: Memory, gs: seq<nat>) {
    forall k :: 0 <= k < |gs| ==> gs[k] < |m|
  }

  lemma HoldingInMemory(s0: Hal, s: Hal, root: nat, base: Word, i: nat, gs: seq<nat>)
    requires Holding(s0, s, root, base, i, gs)
    ensures InMemory(s.mem, gs) && |gs| <= i < 0x10_0000_0000 && Distinct(gs)
  {
    forall k | 0 <= k < |gs|
      ensures gs[k] < |s.mem|
    {
      HeldNotForeign(s0, s, root, PageSet(base, i), FrameSet(gs), gs[k]);
    }
    hide Evolves;
  }

  /** The page and the offset of the byte `off` bytes past base. */
  lemma VaOffset(base: Word, off: nat)
    requires base % 0x1000 + off < 0x1_0000_0000_0000
    ensures var o := base % 0x1000 + off;
      PathOf(Add64(base, off)) == Page(base, o / 0x1000) && Add64(base, off) % 0x1000 == o % 0x1000
  {
    var o := base % 0x1000 + off;
    var k := o / 0x1000;
    OffsetPage(base, off);
    PageNumber(base, k);
    PlacesDiffer(Add64(base, off), PageAddr(base, k));
    hide PathOf, Add64, PageAddr;
  }

  lemma OffsetPage(base: Word, off: nat)
    requires base % 0x1000 + off < 0x1_0000_0000_0000
    ensures var o := base % 0x1000 + off;
      && Add64(base, off) / 0x1000 % 0x10_0000_0000 == (base / 0x1000 + o / 0x1000) % 0x10_0000_0000
      && Add64(base, off) % 0x1000 == o % 0x1000
  {
    var x := base + off;
    var o := base % 0x1000 + off;
    var c := x / 0x1_0000_0000_0000_0000;
    Euclid(x, 0x1_0000_0000_0000_0000);
    Euclid(base, 0x1000);
    Euclid(o, 0x1000);
    var n := base / 0x1000 + o / 0x1000;
    DivIs(Add64(base, off), 0x1000, n - c * 0x10_0000_0000_0000, o % 0x1000);
    ModMinus(n, c * 0x1_0000, 0x10_0000_0000);
  }

  /** Reading through the translation reads the held frames. */
  lemma ReadImage(s0: Hal, s: Hal, root: nat, base: Word, gs: seq<nat>, off: nat)
    requires Holding(s0, s, root, base, |gs|, gs)
    requires base % 0x1000 + off < |gs| * 0x1000 && Canonical(Add64(base, off))
    ensures InMemory(s.mem, gs)
    ensures ReadVa(s.mem, root, Add64(base, off)) == ImageByte(s.mem, gs, base % 0x1000 + off)
  {
    HoldingInMemory(s0, s, root, base, |gs|, gs);
    VaOffset(base, off);
    var k := (base % 0x1000 + off) / 0x1000;
    assert Shown(s.mem, root, base, k, gs[k]);
    hide Evolves, Resolve, PathOf, Page, Add64, FrameByte;
  }

  /** Writing one byte through the translation changes that byte of the image and no other. */
  lemma WriteImage(s0: Hal, s: Hal, root: nat, base: Word, gs: seq<nat>, off: nat, b: Byte)
    requires Holding(s0, s, root, base, |gs|, gs)
    requires base % 0x1000 + off < |gs| * 0x1000 && Canonical(Add64(base, off))
    ensures Writable(s.mem, root, Add64(base, off))
    ensures var s' := s.(mem := WriteVa(s.mem, root, Add64(base, off), b));
      && InMemory(s.mem, gs) && InMemory(s'.mem, gs)
      && Holding(s0, s', root, base, |gs|, gs)
      && (forall o :: 0 <= o < |gs| * 0x1000 ==>
            ImageByte(s'.mem, gs, o) == if o == base % 0x1000 + off then b else ImageByte(s.mem, gs, o))
  {
    hide Resolve, PathOf, Page, Add64, FrameByte, SetFrameByte, Evolves, IsDir, ImageByte;
    var o := base % 0x1000 + off;
    var k := o / 0x1000;
    HoldingInMemory(s0, s, root, base, |gs|, gs);
    VaOffset(base, off);
    assert Shown(s.mem, root, base, k, gs[k]);
    WriteHolding(s0, s, root, base, gs, k, SetFrameByte(s.mem[gs[k]], o % 0x1000, b));
    WriteBytes(s.mem, gs, o, b);
  }

  lemma WriteBytes(m: Memory, gs: seq<nat>, o: nat, b: Byte)
    requires InMemory(m, gs) && Distinct(gs) && o < |gs| * 0x1000
    ensures var m' := m[gs[o / 0x1000] := SetFrameByte(m[gs[o / 0x1000]], o % 0x1000, b)];
      && InMemory(m', gs)
      && (forall o' :: 0 <= o' < |gs| * 0x1000 ==> ImageByte(m', gs, o') == if o' == o then b else ImageByte(m, gs, o'))
  {
    hide FrameByte, SetFrameByte;
    var f := gs[o / 0x1000];
    var m' := m[f := SetFrameByte(m[f], o % 0x1000, b)];
    forall o' | 0 <= o' < |gs| * 0x1000
      ensures ImageByte(m', gs, o') == if o' == o then b else ImageByte(m, gs, o')
    {
      SetFrameByteSpec(m[f], o % 0x1000, b, o' % 0x1000);
      SameOffset(o, o');
      if o' / 0x1000 != o / 0x1000 {
        assert gs[o' / 0x1000] != f;
      }
    }
  }

  lemma SameOffset(o: nat, o': nat)
    ensures o == o' <==> o / 0x1000 == o' / 0x1000 && o % 0x1000 == o' % 0x1000
  {
  }

  lemma WriteHolding(s0: Hal, s: Hal, root: nat, base: Word, gs: seq<nat>, k: nat, content: Frame)
    requires Holding(s0, s, root, base, |gs|, gs) && k < |gs|
    ensures gs[k] < |s.mem|
    ensures Holding(s0, s.(mem := s.mem[gs[k] := content]), root, base, |gs|, gs)
  {
    hide Resolve, PathOf, Page, Evolves, IsDir, Shown;
    WriteHeld(s0, s, root, PageSet(base, |gs|), FrameSet(gs), gs[k], content);
    var s' := s.(mem := s.mem[gs[k] := content]);
    forall j | 0 <= j < |gs|
      ensures Shown(s'.mem, root, base, j, gs[j])
    {
      ShownSame(s.mem, s'.mem, root, base, j, gs[j]);
    }
  }

  /** Copying onto canonical addresses faults nowhere, lays the source over the image and changes no other byte. */
  lemma {:induction false} CopyImage(s0: Hal, s: Hal, root: nat, base: Word, gs: seq<nat>, src: seq<Byte>, off: nat,
                                     k: nat)
    requires Holding(s0, s, root, base, |gs|, gs)
    requires k <= |src| && base % 0x1000 + off + |src| <= |gs| * 0x1000
    requires CanonicalRange(base, off + k, off + |src|)
    ensures NoFault(s.mem, root, src, Add64(base, off), k)
    ensures var s' := s.(mem := CopyFrom(s.mem, root, src, Add64(base, off), k));
      var at := base % 0x1000 + off;
      && InMemory(s.mem, gs) && InMemory(s'.mem, gs)
      && Holding(s0, s', root, base, |gs|, gs)
      && (forall o :: 0 <= o < |gs| * 0x1000 ==>
            ImageByte(s'.mem, gs, o) == if at + k <= o < at + |src| then src[o - at] else ImageByte(s.mem, gs, o))
    decreases |src| - k
  {
    hide Holding, ImageByte, WriteVa, Writable, Canonical;
    HoldingInMemory(s0, s, root, base, |gs|, gs);
    if k < |src| {
      assert Add64(Add64(base, off), k) == Add64(base, off + k);
      WriteImage(s0, s, root, base, gs, off + k, src[k]);
      var s1 := s.(mem := WriteVa(s.mem, root, Add64(base, off + k), src[k]));
      CopyImage(s0, s1, root, base, gs, src, off, k + 1);
    }
  }

  /** rt_copy_memory_safe onto held pages: the source is laid over the image when it fits the size, otherwise that many
      zeros are; a null target is left alone. */
  lemma SafeCopy(s0: Hal, s: Hal, root: nat, base: Word, gs: seq<nat>, src: seq<Byte>, off: nat, size: nat)
    requires Holding(s0, s, root, base, |gs|, gs) && base % 0x1000 + off + size <= |gs| * 0x1000
    requires CanonicalRange(base, off, off + size)
    ensures var va := Add64(base, off);
      var s' := s.(mem := CopySafe(s.mem, root, src, va, size));
      var at := base % 0x1000 + off;
      && InMemory(s.mem, gs) && InMemory(s'.mem, gs)
      && (va == 0 ==> s' == s)
      && (va != 0 && |src| <= size ==>
            forall o :: 0 <= o < |gs| * 0x1000 ==>
              ImageByte(s'.mem, gs, o) == if at <= o < at + |src| then src[o - at] else ImageByte(s.mem, gs, o))
      && (va != 0 && |src| > size ==>
            forall o :: 0 <= o < |gs| * 0x1000 ==>
              ImageByte(s'.mem, gs, o) == if at <= o < at + size then 0 else ImageByte(s.mem, gs, o))
  {
    HoldingInMemory(s0, s, root, base, |gs|, gs);
    hide Holding, ImageByte, CopyFrom, Canonical, Add64;
    if |src| <= size {
      CopyImage(s0, s, root, base, gs, src, off, 0);
    } else {
      CopyImage(s0, s, root, base, gs, seq(size, _ => 0), off, 0);
    }
  }

  /** Fresh frames read as zeros. */
  lemma ZeroImage(m: Memory, gs: seq<nat>)
    requires AllZero(m, gs)
    ensures InMemory(m, gs) && forall o :: 0 <= o < |gs| * 0x1000 ==> ImageByte(m, gs, o) == 0
  {
    hide FrameByte;
    forall o | 0 <= o < |gs| * 0x1000
      ensures ImageByte(m, gs, o) == 0
    {
      ZeroByte(o % 0x1000);
    }
  }

  /** A later step that leaves the pages of a load alone leaves its bytes alone. */
  lemma LoadKept(s0: Hal, s1: Hal, s2: Hal, root: nat, base: Word, gs: seq<nat>, pages: set<Path>, held: set<nat>,
                 off: nat)
    requires Holding(s0, s1, root, base, |gs|, gs) && Evolves(s1, s2, root, pages, held)
    requires base % 0x1000 + off < |gs| * 0x1000 && Page(base, (base % 0x1000 + off) / 0x1000) !in pages
    ensures ReadVa(s2.mem, root, Add64(base, off)) == ReadVa(s1.mem, root, Add64(base, off))
  {
    hide Evolves, Resolve, PathOf, Page, Add64, FrameByte, IsDir, PageSet, FrameSet;
    VaOffset(base, off);
    var k := (base % 0x1000 + off) / 0x1000;
    assert Shown(s1.mem, root, base, k, gs[k]);
    FrameIn(gs, k);
    HeldKept(s0, s1, s2, root, PageSet(base, |gs|), FrameSet(gs), pages, held, gs[k]);
    EvolvesParts(s1, s2, root, pages, held);
    PageIs(base, k);
    PathOfPage(PageAddr(base, k));
  }

  lemma FrameIn(gs: seq<nat>, k: nat)
    requires k < |gs|
    ensures gs[k] in FrameSet(gs)
  {
  }
}
