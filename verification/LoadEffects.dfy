/** What a load does to what was there before: on the page after an uncovered section, and on the pages a roll-back
    leaves behind. */
module LoadEffects {
  import opened Words
  import opened Bytes
  import opened PhysicalMemory
  import opened FrameAllocator
  import opened PageTables
  import opened PagingProofs
  import opened SectionLoader
  import opened LoaderProofs
  import opened ImageProofs
  import opened Demand
  import opened Reachability
  import opened PefContainer
  import opened PefLoader
  import opened Pe32Loader
  import opened Pe32Proofs

  // ---------------------------------------------------------------- past the last page

  /** Without content past the pages, the page after them still shows what it showed, so no byte of the section's
      uncovered tail is backed by the load. */
  lemma TailUntouched(s: Hal, cr3: Word, h: Header, src: Source)
    requires CanLoad(s, cr3, h.vmAddress, PageCount(h.vmSize)) && Placed(h) && 0 < h.vmSize
    requires ContentFits(h) && !Covered(h.vmAddress, h.vmSize) && (src.Source? ==> |src.bytes| == h.offsetSize)
    ensures var tail := PathOf(Add64(h.vmAddress, h.vmSize - 1));
      Resolve(LoadSection(s, cr3, h, src).0.mem, cr3 / 0x1000, tail) == Resolve(s.mem, cr3 / 0x1000, tail)
  {
    hide Holding, LoadSection, ReadsAs, PageCount, PageSet, Sound, Cost, Reach, Resolve, PathOf, Add64, Page, Evolves,
      Clear, PoolKept, NoFault, Canonical;
    var root, n := cr3 / 0x1000, PageCount(h.vmSize);
    var s' := LoadSection(s, cr3, h, src).0;
    LoadSectionSpec(s, cr3, h, src);
    UncoveredTail(h.vmAddress, h.vmSize);
    if s' != s {
      var i, gs :| 0 <= i <= n && Holding(s, s', root, h.vmAddress, i, gs);
      SomePages(h.vmAddress, i, n);
      OtherPage(s, s', root, h.vmAddress, i, gs, Add64(h.vmAddress, h.vmSize - 1));
    }
  }

  lemma OtherPage(s: Hal, s': Hal, root: nat, base: Word, i: nat, gs: seq<nat>, va: Word)
    requires Holding(s, s', root, base, i, gs) && PathOf(va) !in PageSet(base, i)
    ensures Resolve(s'.mem, root, PathOf(va)) == Resolve(s.mem, root, PathOf(va))
  {
    EvolvesParts(s, s', root, PageSet(base, i), FrameSet(gs));
    PathOfPage(va);
    hide *;
  }

  /** Writing a frame in other hands changes no page and no table. */
  lemma ForeignWrite(s: Hal, root: nat, f: nat, content: Frame)
    requires Sound(s, root) && Foreign(s, root, f) && f < |s.mem|
    ensures var s' := s.(mem := s.mem[f := content]);
      && Sound(s', root) && Foreign(s', root, f)
      && (forall n :: Depth(n) <= 4 ==> Resolve(s'.mem, root, n) == Resolve(s.mem, root, n))
  {
    var s' := s.(mem := s.mem[f := content]);
    ForeignIs(s, root, f);
    StoreSpec(s, f, content);
    TablesUsed(s, root);
    FrameWritten(s, s', root, f, content);
    hide Sound, Tables, Used, Resolve, FreeList, PmmOk, SamePages, DirsKept;
  }

  lemma ForeignIs(s: Hal, root: nat, f: nat)
    requires Sound(s, root) && Foreign(s, root, f)
    ensures f !in Tables(s.mem, root) && (f in Used(s) || !InPool(s, f))
  {
    TablesUsed(s, root);
    UsedBounds(s);
    hide Tables, Used, TreeOk, LeafCarriesPolicy, FreeList;
  }

  /** A copy in two parts. */
  lemma {:induction false} CopySplit(m: Memory, root: nat, src: seq<Byte>, va: Word, k: nat, j: nat)
    requires k <= j <= |src|
    ensures var m1 := CopyFrom(m, root, src[..j], va, k);
      && CopyFrom(m, root, src, va, k) == CopyFrom(m1, root, src, va, j)
      && (NoFault(m, root, src, va, k) <==> NoFault(m, root, src[..j], va, k) && NoFault(m1, root, src, va, j))
    decreases j - k
  {
    hide WriteVa, Writable, Add64;
    if k < j {
      CopySplit(WriteVa(m, root, Add64(va, k), src[k]), root, src, va, k + 1, j);
    }
  }

  /** Bytes k to |src| from base on all lie on page n of the range. */
  predicate OnPage(base: Word, n: nat, src: seq<Byte>, k: nat) {
    n < 0x10_0000 && k <= |src| && n * 0x1000 <= base % 0x1000 + k && base % 0x1000 + |src| <= (n + 1) * 0x1000
  }

  /** Where a byte of that page is. */
  lemma ByteOnPage(base: Word, n: nat, src: seq<Byte>, k: nat)
    requires OnPage(base, n, src, k) && k < |src|
    ensures PathOf(Add64(base, k)) == Page(base, n)
    ensures Add64(base, k) % 0x1000 == base % 0x1000 + k - n * 0x1000 < 0x1000
  {
    VaOffset(base, k);
    DivIs(base % 0x1000 + k, 0x1000, n, base % 0x1000 + k - n * 0x1000);
    hide PathOf, Add64, Page;
  }

  /** The processor writes on this page. */
  predicate Takes(m: Memory, v: View) {
    v.Leaf? && v.frame < |m| && v.wr
  }

  /** Writing one byte of a page in other hands. */
  lemma WriteOnPage(s: Hal, root: nat, base: Word, n: nat, src: seq<Byte>, k: nat, f: nat)
    requires Sound(s, root) && OnPage(base, n, src, k) && k < |src| && Canonical(Add64(base, k))
    requires var v := Resolve(s.mem, root, Page(base, n)); Takes(s.mem, v) && v.frame == f && Foreign(s, root, f)
    ensures Writable(s.mem, root, Add64(base, k))
    ensures var o := base % 0x1000 + k - n * 0x1000;
      var s' := s.(mem := WriteVa(s.mem, root, Add64(base, k), src[k]));
      && 0 <= o < 0x1000 && s'.mem == s.mem[f := SetFrameByte(s.mem[f], o, src[k])]
      && Sound(s', root) && Foreign(s', root, f)
      && (forall p :: Depth(p) <= 4 ==> Resolve(s'.mem, root, p) == Resolve(s.mem, root, p))
  {
    ByteOnPage(base, n, src, k);
    hide PathOf, Add64, Page, Sound, Foreign, Resolve, SetFrameByte, Canonical;
    ForeignWrite(s, root, f, SetFrameByte(s.mem[f], base % 0x1000 + k - n * 0x1000, src[k]));
  }

  /** What a copy onto one page in other hands leaves: its frame holds the bytes, everything else is as it was. */
  ghost predicate Spilled(s: Hal, s': Hal, root: nat, base: Word, n: nat, src: seq<Byte>, k: nat, f: nat) {
    && Sound(s', root) && Foreign(s', root, f) && |s'.mem| == |s.mem| && f < |s.mem|
    && (forall p :: Depth(p) <= 4 ==> Resolve(s'.mem, root, p) == Resolve(s.mem, root, p))
    && (forall g :: 0 <= g < |s.mem| && g != f ==> s'.mem[g] == s.mem[g])
    && (forall o :: 0 <= o < 0x1000 ==>
          FrameByte(s'.mem[f], o) ==
            var j := o + n * 0x1000 - base % 0x1000;
            if k <= j < |src| then src[j] else FrameByte(s.mem[f], o))
  }

  lemma {:induction false} CopySpills(s: Hal, root: nat, base: Word, n: nat, src: seq<Byte>, k: nat, f: nat)
    requires Sound(s, root) && OnPage(base, n, src, k) && CanonicalRange(base, k, |src|)
    requires var v := Resolve(s.mem, root, Page(base, n)); Takes(s.mem, v) && v.frame == f && Foreign(s, root, f)
    ensures Spilled(s, s.(mem := CopyFrom(s.mem, root, src, base, k)), root, base, n, src, k, f)
    ensures NoFault(s.mem, root, src, base, k)
    decreases |src| - k
  {
    hide Sound, Foreign, Resolve, WriteVa, Writable, Add64, PathOf, SetFrameByte, FrameByte, Canonical;
    if k < |src| {
      WriteOnPage(s, root, base, n, src, k, f);
      var s1 := s.(mem := WriteVa(s.mem, root, Add64(base, k), src[k]));
      PathOfPage(PageAddr(base, n));
      CopySpills(s1, root, base, n, src, k + 1, f);
      SpillStep(s, s1, s1.(mem := CopyFrom(s1.mem, root, src, base, k + 1)), root, base, n, src, k, f);
    }
  }

  lemma SpillStep(s: Hal, s1: Hal, s': Hal, root: nat, base: Word, n: nat, src: seq<Byte>, k: nat, f: nat)
    requires OnPage(base, n, src, k) && k < |src| && f < |s.mem|
    requires var o := base % 0x1000 + k - n * 0x1000;
      0 <= o < 0x1000 && s1.mem == s.mem[f := SetFrameByte(s.mem[f], o, src[k])]
    requires forall p :: Depth(p) <= 4 ==> Resolve(s1.mem, root, p) == Resolve(s.mem, root, p)
    requires Spilled(s1, s', root, base, n, src, k + 1, f)
    ensures Spilled(s, s', root, base, n, src, k, f)
  {
    hide Sound, Foreign, Resolve, SetFrameByte, FrameByte;
    forall o | 0 <= o < 0x1000
      ensures var j := o + n * 0x1000 - base % 0x1000;
        FrameByte(s'.mem[f], o) == if k <= j < |src| then src[j] else FrameByte(s.mem[f], o)
    {
      SetFrameByteSpec(s.mem[f], base % 0x1000 + k - n * 0x1000, src[k], o);
    }
  }

  /** A copy onto a page faults at once when the processor does not write there. */
  lemma CopyFaults(m: Memory, root: nat, base: Word, n: nat, src: seq<Byte>, k: nat)
    requires OnPage(base, n, src, k) && k < |src| && !Takes(m, Resolve(m, root, Page(base, n)))
    ensures !NoFault(m, root, src, base, k)
  {
    ByteOnPage(base, n, src, k);
    hide Resolve, Add64, PathOf, Page, WriteVa;
  }

  /** The page after the pages of a load shows no table and no free frame. */
  ghost predicate TailFree(s: Hal, root: nat, base: Word, n: nat) {
    var v := Resolve(s.mem, root, Page(base, n));
    Takes(s.mem, v) ==> Foreign(s, root, v.frame)
  }

  /** What a load whose content runs past its pages leaves: the covered bytes read as the content, every other page
      translates as before, and the bytes past the pages have overwritten what the next page shows. */
  ghost predicate SpilledOver(s: Hal, s': Hal, root: nat, base: Word, n: nat, c: nat, content: seq<Byte>)
    requires c <= |content|
  {
    && Sound(s', root)
    && SamePages(s.mem, s'.mem, root, PageSet(base, n))
    && ReadsAs(s'.mem, root, base, c, content[..c])
    && forall off :: c <= off < |content| ==> ReadVa(s'.mem, root, Add64(base, off)) == content[off]
  }

  /** Content past the pages: the copy faults nowhere exactly when the processor writes on the page after them, and then
      overwrites what that page shows. */
  lemma SpillSpec(s: Hal, cr3: Word, h: Header, src: Source)
    requires CanLoad(s, cr3, h.vmAddress, PageCount(h.vmSize)) && Placed(h) && !ContentFits(h)
    requires src.Source? && |src.bytes| == h.offsetSize && LoadSection(s, cr3, h, src).1.Loaded?
    requires TailFree(s, cr3 / 0x1000, h.vmAddress, PageCount(h.vmSize))
    ensures CoveredBytes(h.vmAddress, h.vmSize) <= h.offsetSize
    ensures var root, n := cr3 / 0x1000, PageCount(h.vmSize);
      var kept := Takes(s.mem, Resolve(s.mem, root, Page(h.vmAddress, n)));
      && (NoFault(MapPages(s, cr3, h.vmAddress, 0, n).0.mem, root, src.bytes, h.vmAddress, 0) <==> kept)
      && (kept ==> SpilledOver(s, LoadSection(s, cr3, h, src).0, root, h.vmAddress, n,
                               CoveredBytes(h.vmAddress, h.vmSize), src.bytes))
  {
    var root, n, c := cr3 / 0x1000, PageCount(h.vmSize), CoveredBytes(h.vmAddress, h.vmSize);
    SpillBounds(h, src.bytes);
    SpillCanonical(h, c);
    hide Holding, AllZero, MapPages, ReadsAs, CopyFrom, PageCount, CoveredBytes, ContentFits, TailFree, SpilledOver,
      OnPage, Mapped, Sound, PoolKept, Clear, NoFault, CanonicalRange, Takes;
    CountBound(h.vmSize);
    HoldingNothing(s, root, h.vmAddress);
    MapPagesSpec(s, s, cr3, h.vmAddress, [], n);
    var s1 := MapPages(s, cr3, h.vmAddress, 0, n).0;
    var gs :| |gs| == n && Holding(s, s1, root, h.vmAddress, n, gs) && AllZero(s1.mem, gs);
    CopiedReads(s, s1, root, h.vmAddress, gs, c, src.bytes[..c]);
    CopySplit(s1.mem, root, src.bytes, h.vmAddress, 0, c);
    var s2 := s1.(mem := CopyFrom(s1.mem, root, src.bytes[..c], h.vmAddress, 0));
    SpillTail(s, s2, root, h.vmAddress, gs, c, src.bytes);
  }

  lemma SpillCanonical(h: Header, c: nat)
    requires Placed(h) && c <= h.offsetSize
    ensures CanonicalRange(h.vmAddress, 0, c) && CanonicalRange(h.vmAddress, c, h.offsetSize)
  {
    hide Canonical, Add64;
  }

  lemma SpillBounds(h: Header, content: seq<Byte>)
    requires |content| == h.offsetSize <= h.vmSize <= 0x400_0000 && !ContentFits(h)
    ensures var n, c := PageCount(h.vmSize), CoveredBytes(h.vmAddress, h.vmSize);
      h.vmAddress % 0x1000 + c == n * 0x1000 && c < |content| && OnPage(h.vmAddress, n, content, c)
  {
    PagesHold(h.vmSize);
    hide PageCount;
  }

  lemma PagesHold(size: Word)
    requires size <= 0x400_0000
    ensures size <= PageCount(size) * 0x1000 && PageCount(size) < 0x10_0000
  {
  }

  /** The second part of such a load, past the held pages. */
  lemma SpillTail(s: Hal, s2: Hal, root: nat, base: Word, gs: seq<nat>, c: nat, content: seq<Byte>)
    requires Holding(s, s2, root, base, |gs|, gs) && TailFree(s, root, base, |gs|)
    requires OnPage(base, |gs|, content, c) && base % 0x1000 + c == |gs| * 0x1000 && c < |content|
    requires ReadsAs(s2.mem, root, base, c, content[..c]) && CanonicalRange(base, c, |content|)
    ensures var kept := Takes(s.mem, Resolve(s.mem, root, Page(base, |gs|)));
      && (NoFault(s2.mem, root, content, base, c) <==> kept)
      && (kept ==> SpilledOver(s, s2.(mem := CopyFrom(s2.mem, root, content, base, c)), root, base, |gs|, c, content))
  {
    var n := |gs|;
    var v := Resolve(s.mem, root, Page(base, n));
    var s3 := s2.(mem := CopyFrom(s2.mem, root, content, base, c));
    NextPage(base, n);
    HoldingParts(s, s2, root, base, gs);
    hide Holding, ReadsAs, CopyFrom, Sound, Foreign, Resolve, Page, PageSet, FrameSet, Evolves, SamePages, DirsKept,
      NoFault, CanonicalRange;
    PageSame(s.mem, s2.mem, root, PageSet(base, n), Page(base, n));
    if Takes(s.mem, v) {
      ForeignKept(s, s2, root, PageSet(base, n), FrameSet(gs), v.frame);
      CopySpills(s2, root, base, n, content, c, v.frame);
      SpillPages(s.mem, s2.mem, s3.mem, root, PageSet(base, n));
      SpillHeld(s, s2, s3, root, base, gs, c, content, v.frame);
      SpillRead(s2, s3, root, base, n, content, c, v.frame);
    } else {
      CopyFaults(s2.mem, root, base, n, content, c);
    }
  }

  lemma NextPage(base: Word, n: nat)
    requires n < 0x10_0000
    ensures Page(base, n) !in PageSet(base, n) && Depth(Page(base, n)) == 4
  {
    PathOfPage(PageAddr(base, n));
    hide PathOf, PageAddr;
    forall k | 0 <= k < n
      ensures Page(base, k) != Page(base, n)
    {
      PagesDistinct(base, k, n);
    }
  }

  lemma HoldingParts(s: Hal, s': Hal, root: nat, base: Word, gs: seq<nat>)
    requires Holding(s, s', root, base, |gs|, gs)
    ensures Evolves(s, s', root, PageSet(base, |gs|), FrameSet(gs)) && Sound(s', root) && |s'.mem| == |s.mem|
    ensures SamePages(s.mem, s'.mem, root, PageSet(base, |gs|))
  {
    EvolvesParts(s, s', root, PageSet(base, |gs|), FrameSet(gs));
    hide Evolves;
  }

  lemma PageSame(m: Memory, m': Memory, root: nat, pages: set<Path>, p: Path)
    requires SamePages(m, m', root, pages) && p !in pages && Depth(p) == 4
    ensures Resolve(m', root, p) == Resolve(m, root, p)
  {
    hide Resolve;
  }

  lemma SpillPages(m: Memory, m2: Memory, m3: Memory, root: nat, pages: set<Path>)
    requires SamePages(m, m2, root, pages) && forall p :: Depth(p) <= 4 ==> Resolve(m3, root, p) == Resolve(m2, root, p)
    ensures SamePages(m, m3, root, pages)
  {
    hide Resolve;
  }

  lemma SpillHeld(s: Hal, s2: Hal, s3: Hal, root: nat, base: Word, gs: seq<nat>, c: nat, content: seq<Byte>, f: nat)
    requires Holding(s, s2, root, base, |gs|, gs) && f !in FrameSet(gs) && c <= |content|
    requires base % 0x1000 + c == |gs| * 0x1000 && Spilled(s2, s3, root, base, |gs|, content, c, f)
    requires ReadsAs(s2.mem, root, base, c, content[..c])
    ensures ReadsAs(s3.mem, root, base, c, content[..c])
  {
    hide Resolve, PathOf, Page, Add64, FrameByte, Sound, Foreign, IsDir, Evolves, FrameSet;
    forall off | 0 <= off < c
      ensures ReadVa(s3.mem, root, Add64(base, off)) == ReadVa(s2.mem, root, Add64(base, off))
    {
      VaOffset(base, off);
      var k := (base % 0x1000 + off) / 0x1000;
      assert Shown(s2.mem, root, base, k, gs[k]);
      PageIs(base, k);
      PathOfPage(PageAddr(base, k));
      FrameIn(gs, k);
    }
  }

  lemma SpillRead(s2: Hal, s3: Hal, root: nat, base: Word, n: nat, content: seq<Byte>, c: nat, f: nat)
    requires OnPage(base, n, content, c) && Spilled(s2, s3, root, base, n, content, c, f)
    requires CanonicalRange(base, c, |content|)
    requires var v := Resolve(s2.mem, root, Page(base, n)); Takes(s2.mem, v) && v.frame == f
    ensures forall off :: c <= off < |content| ==> ReadVa(s3.mem, root, Add64(base, off)) == content[off]
  {
    hide Resolve, PathOf, Page, Add64, FrameByte, Sound, Foreign, Canonical;
    forall off | c <= off < |content|
      ensures ReadVa(s3.mem, root, Add64(base, off)) == content[off]
    {
      ByteOnPage(base, n, content, off);
      NextPage(base, n);
    }
  }

  // ---------------------------------------------------------------- roll-backs

  /** The first i pages of a range show nothing. */
  ghost predicate ShowNothing(m: Memory, root: nat, base: Word, i: nat) {
    forall k :: 0 <= k < i ==> Resolve(m, root, Page(base, k)) == Fault
  }

  /** A roll-back brings back what every page showed exactly when the pages it touched showed nothing. */
  lemma RollbackRestores(s: Hal, s': Hal, root: nat, base: Word, i: nat)
    requires Holding(s, s', root, base, i, [])
    ensures SamePages(s.mem, s'.mem, root, {}) <==> ShowNothing(s.mem, root, base, i)
  {
    EvolvesParts(s, s', root, PageSet(base, i), FrameSet([]));
    hide Resolve, Page, Evolves, Sound, DirsKept, Foreign;
    forall k | 0 <= k < i
      ensures Depth(Page(base, k)) == 4 && Page(base, k) in PageSet(base, i)
    {
      PageIs(base, k);
      PathOfPage(PageAddr(base, k));
    }
  }

  /** pef_load_section, failing: the translation is as before exactly when the pages the free frames paid for showed
      nothing. */
  lemma SectionRollback(s: Hal, cr3: Word, h: Header, src: Source)
    requires CanLoad(s, cr3, h.vmAddress, PageCount(h.vmSize)) && Placed(h) && ContentFits(h)
    requires src.Source? && |src.bytes| == h.offsetSize && LoadSection(s, cr3, h, src).1.Failed?
    ensures var root := cr3 / 0x1000;
      SamePages(s.mem, LoadSection(s, cr3, h, src).0.mem, root, {})
      <==> ShowNothing(s.mem, root, h.vmAddress, Reach(s, root, h.vmAddress, PageCount(h.vmSize)))
  {
    hide *;
    LoadSectionSpec(s, cr3, h, src);
    RollbackRestores(s, LoadSection(s, cr3, h, src).0, cr3 / 0x1000, h.vmAddress,
                     Reach(s, cr3 / 0x1000, h.vmAddress, PageCount(h.vmSize)));
  }

  /** PE32Loader::LoadImage, failing for whatever reason: likewise. */
  lemma ImageRollback(s: Hal, cr3: Word, l: Loader)
    requires |l.blob| < 0x1_0000_0000_0000_0000 && Ready(l) && PlacedWell(ParseImage(l.blob))
    requires CanLoad(s, cr3, ParseImage(l.blob).base, PageCount(ParseImage(l.blob).size))
    requires LoadImage(s, cr3, l).2.Failed?
    ensures var root, img := cr3 / 0x1000, ParseImage(l.blob);
      SamePages(s.mem, LoadImage(s, cr3, l).0.mem, root, {})
      <==> ShowNothing(s.mem, root, img.base, Reach(s, root, img.base, PageCount(img.size)))
  {
    var img := ParseImage(l.blob);
    LoadImageSpec(s, cr3, l);
    RollbackRestores(s, LoadImage(s, cr3, l).0, cr3 / 0x1000, img.base,
                     Reach(s, cr3 / 0x1000, img.base, PageCount(img.size)));
    hide *;
  }

  // ---------------------------------------------------------------- one load after another

  /** The byte `off` bytes past base lies on one of the first i pages from base'. */
  predicate Touches(base: Word, off: nat, base': Word, i: nat) {
    Page(base, (base % 0x1000 + off) / 0x1000) in PageSet(base', i)
  }

  /** After a roll-back the bytes of an earlier load read as before, except on the pages it touched, where nothing can
      be read. */
  lemma AfterRollback(s: Hal, s1: Hal, s2: Hal, root: nat, base: Word, gs: seq<nat>, base': Word, i: nat, off: nat)
    requires Holding(s, s1, root, base, |gs|, gs) && Holding(s1, s2, root, base', i, [])
    requires base % 0x1000 + off < |gs| * 0x1000 && Canonical(Add64(base, off))
    ensures ReadVa(s1.mem, root, Add64(base, off)) >= 0
    ensures ReadVa(s2.mem, root, Add64(base, off))
         == if Touches(base, off, base', i) then -1 else ReadVa(s1.mem, root, Add64(base, off))
  {
    hide *;
    ReadImage(s, s1, root, base, gs, off);
    HoldingFrameFits(s, s1, root, base, |gs|, gs);
    if Touches(base, off, base', i) {
      TouchedLost(s1, s2, root, base, base', i, off);
    } else {
      UntouchedKept(s, s1, s2, root, base, gs, base', i, off);
    }
  }

  lemma TouchedLost(s1: Hal, s2: Hal, root: nat, base: Word, base': Word, i: nat, off: nat)
    requires Holding(s1, s2, root, base', i, []) && base % 0x1000 + off < 0x1_0000_0000_0000
    requires Touches(base, off, base', i)
    ensures ReadVa(s2.mem, root, Add64(base, off)) == -1
  {
    hide Resolve, PathOf, Page, Add64, FrameByte, Evolves;
    VaOffset(base, off);
    var j :| 0 <= j < i && Page(base, (base % 0x1000 + off) / 0x1000) == Page(base', j);
    assert Resolve(s2.mem, root, Page(base', j)) == Fault;
  }

  lemma UntouchedKept(s: Hal, s1: Hal, s2: Hal, root: nat, base: Word, gs: seq<nat>, base': Word, i: nat, off: nat)
    requires Holding(s, s1, root, base, |gs|, gs) && Holding(s1, s2, root, base', i, [])
    requires base % 0x1000 + off < |gs| * 0x1000 && !Touches(base, off, base', i)
    ensures ReadVa(s2.mem, root, Add64(base, off)) == ReadVa(s1.mem, root, Add64(base, off))
  {
    hide Resolve, PathOf, Page, Add64, FrameByte, Evolves, Holding, PageSet, ReadVa;
    HoldingEvolves(s1, s2, root, base', i, []);
    LoadKept(s, s1, s2, root, base, gs, PageSet(base', i), FrameSet([]), off);
  }

  /** What can be read has an address the processor accepts. */
  lemma ReadCanonical(m: Memory, root: nat, base: Word, size: nat, content: seq<Byte>, off: nat)
    requires ReadsAs(m, root, base, size, content) && off < size
    ensures Canonical(Add64(base, off))
  {
    hide Resolve, PathOf, Add64, FrameByte, Canonical;
    assert ReadVa(m, root, Add64(base, off)) >= 0;
  }

  /** A section that reads as its content still does after a roll-back exactly when none of its pages was touched. */
  lemma ReadsAfterRollback(s: Hal, s1: Hal, s2: Hal, root: nat, base: Word, size: Word, gs: seq<nat>, base': Word,
                           i: nat, content: seq<Byte>)
    requires Covered(base, size) && |gs| == PageCount(size)
    requires Holding(s, s1, root, base, |gs|, gs) && Holding(s1, s2, root, base', i, [])
    requires ReadsAs(s1.mem, root, base, size, content)
    ensures ReadsAs(s2.mem, root, base, size, content) <==> PageSet(base, |gs|) !! PageSet(base', i)
  {
    hide Holding, ReadVa, Add64, Page, Evolves, Canonical;
    forall off | 0 <= off < size
      ensures ReadVa(s1.mem, root, Add64(base, off)) >= 0
      ensures ReadVa(s2.mem, root, Add64(base, off))
           == if Touches(base, off, base', i) then -1 else ReadVa(s1.mem, root, Add64(base, off))
    {
      ReadCanonical(s1.mem, root, base, size, content, off);
      AfterRollback(s, s1, s2, root, base, gs, base', i, off);
    }
    hide PageCount;
    if PageSet(base, |gs|) !! PageSet(base', i) {
      forall off | 0 <= off < size
        ensures !Touches(base, off, base', i)
      {
        assert Page(base, (base % 0x1000 + off) / 0x1000) in PageSet(base, |gs|);
      }
    } else {
      var p :| p in PageSet(base, |gs|) && p in PageSet(base', i);
      var k :| 0 <= k < |gs| && p == Page(base, k);
      var off := FirstByte(base, size, k);
      assert Touches(base, off, base', i);
    }
  }

  /** Every page of a load holds a byte of it. */
  lemma FirstByte(base: Word, size: Word, k: nat) returns (off: nat)
    requires k < PageCount(size) && Covered(base, size)
    ensures off < size && (base % 0x1000 + off) / 0x1000 == k
  {
    off := if k == 0 then 0 else k * 0x1000 - base % 0x1000;
  }

  /** A load that fails after another one succeeded: the first section still reads as its content and zeros exactly when
      the pages the free frames paid for are none of its own. */
  lemma FailedLoadOver(s: Hal, cr3: Word, h: Header, src: Source, h': Header, src': Source)
    requires CanLoad(s, cr3, h.vmAddress, PageCount(h.vmSize)) && Placed(h) && Covered(h.vmAddress, h.vmSize)
    requires src.Source? && |src.bytes| == h.offsetSize && LoadSection(s, cr3, h, src).1.Loaded?
    requires CanLoad(LoadSection(s, cr3, h, src).0, cr3, h'.vmAddress, PageCount(h'.vmSize))
    requires Placed(h') && ContentFits(h') && src'.Source? && |src'.bytes| == h'.offsetSize
    requires LoadSection(LoadSection(s, cr3, h, src).0, cr3, h', src').1.Failed?
    ensures var root := cr3 / 0x1000;
      var s1 := LoadSection(s, cr3, h, src).0;
      var s2 := LoadSection(s1, cr3, h', src').0;
      ReadsAs(s2.mem, root, h.vmAddress, h.vmSize, src.bytes)
      <==> PageSet(h.vmAddress, PageCount(h.vmSize))
           !! PageSet(h'.vmAddress, Reach(s1, root, h'.vmAddress, PageCount(h'.vmSize)))
  {
    CoveredContent(h);
    hide Holding, LoadSection, ReadsAs, PageCount, PageSet, CanLoad, Placed, Cost, Reach, Covered, ContentFits,
      PoolKept, NoFault;
    var root, n, n' := cr3 / 0x1000, PageCount(h.vmSize), PageCount(h'.vmSize);
    var s1 := LoadSection(s, cr3, h, src).0;
    LoadSectionSpec(s, cr3, h, src);
    var gs :| |gs| == n && Holding(s, s1, root, h.vmAddress, n, gs);
    LoadSectionSpec(s1, cr3, h', src');
    ReadsAfterRollback(s, s1, LoadSection(s1, cr3, h', src').0, root, h.vmAddress, h.vmSize, gs, h'.vmAddress,
                       Reach(s1, root, h'.vmAddress, n'), src.bytes);
  }

  /** An image whose load fails after a section was loaded: likewise. */
  lemma FailedImageOver(s: Hal, cr3: Word, h: Header, src: Source, l: Loader)
    requires CanLoad(s, cr3, h.vmAddress, PageCount(h.vmSize)) && Placed(h) && Covered(h.vmAddress, h.vmSize)
    requires src.Source? && |src.bytes| == h.offsetSize && LoadSection(s, cr3, h, src).1.Loaded?
    requires |l.blob| < 0x1_0000_0000_0000_0000 && Ready(l) && PlacedWell(ParseImage(l.blob))
    requires CanLoad(LoadSection(s, cr3, h, src).0, cr3, ParseImage(l.blob).base, PageCount(ParseImage(l.blob).size))
    requires LoadImage(LoadSection(s, cr3, h, src).0, cr3, l).2.Failed?
    ensures var root, img := cr3 / 0x1000, ParseImage(l.blob);
      var s1 := LoadSection(s, cr3, h, src).0;
      var s2 := LoadImage(s1, cr3, l).0;
      ReadsAs(s2.mem, root, h.vmAddress, h.vmSize, src.bytes)
      <==> PageSet(h.vmAddress, PageCount(h.vmSize))
           !! PageSet(img.base, Reach(s1, root, img.base, PageCount(img.size)))
  {
    CoveredContent(h);
    hide Holding, LoadSection, LoadImage, ReadsAs, PageCount, PageSet, CanLoad, Placed, Cost, Reach, Covered,
      ContentFits, Ready, PlacedWell, ParseImage, AllFit, ImageReads, PoolKept, NoFault, SectionsNoFault;
    var root, img, n := cr3 / 0x1000, ParseImage(l.blob), PageCount(h.vmSize);
    var s1 := LoadSection(s, cr3, h, src).0;
    LoadSectionSpec(s, cr3, h, src);
    var gs :| |gs| == n && Holding(s, s1, root, h.vmAddress, n, gs);
    LoadImageSpec(s1, cr3, l);
    ReadsAfterRollback(s, s1, LoadImage(s1, cr3, l).0, root, h.vmAddress, h.vmSize, gs, img.base,
                       Reach(s1, root, img.base, PageCount(img.size)), src.bytes);
  }

  /** Pages that are mapped need no tables. */
  lemma NoTablesMissing(s: Hal, s1: Hal, root: nat, base: Word, gs: seq<nat>, j: nat)
    requires Holding(s, s1, root, base, |gs|, gs) && j <= |gs|
    ensures Cost(s1.mem, root, base, 0, j) == j
  {
    hide Evolves, Resolve, Page, IsDir;
    forall k | 0 <= k < j
      ensures forall p :: p in WayFrom(PageAddr(base, k), 0) ==> IsDir(s1.mem, root, p)
    {
      assert Shown(s1.mem, root, base, k, gs[k]);
      WayThere(s1.mem, root, PageAddr(base, k));
    }
    hide Holding, WayFrom, PageAddr;
    WaysThere(s1.mem, root, base, 0, j);
    assert Absent(s1.mem, root, Ways(base, 0, j)) == {};
  }

  lemma WayThere(m: Memory, root: nat, va: Word)
    requires IsDir(m, root, PlaceAt(va, 3))
    ensures forall p :: p in WayFrom(va, 0) ==> IsDir(m, root, p)
  {
    AncestorIsDir(m, root, va, 0);
    AncestorIsDir(m, root, va, 1);
    hide IsDir, PlaceAt;
    assert WayFrom(va, 2) == {PlaceAt(va, 3)};
    assert WayFrom(va, 1) == {PlaceAt(va, 2)} + WayFrom(va, 2);
  }

  lemma {:induction false} WaysThere(m: Memory, root: nat, base: Word, i: nat, n: nat)
    requires forall k :: i <= k < n ==> forall p :: p in WayFrom(PageAddr(base, k), 0) ==> IsDir(m, root, p)
    ensures forall p :: p in Ways(base, i, n) ==> IsDir(m, root, p)
    decreases n - i
  {
    hide IsDir, WayFrom, PageAddr;
    if i < n {
      WaysThere(m, root, base, i + 1, n);
    }
  }

  lemma {:induction false} ReachCheap(s: Hal, root: nat, base: Word, n: nat)
    requires forall j :: 0 <= j <= n ==> Cost(s.mem, root, base, 0, j) == j
    ensures Reach(s, root, base, n) == if s.free >= n then n else s.free
    decreases n
  {
    hide Cost;
    if n > 0 {
      ReachCheap(s, root, base, n - 1);
    }
  }

  /** Loading a section again, as every lookup of its symbol does: it succeeds exactly when there is a frame for each of
      its pages, and when it does not, the first load still reads as its content exactly when there is no frame at all.
      */
  lemma Reload(s: Hal, cr3: Word, h: Header, src: Source, src': Source)
    requires CanLoad(s, cr3, h.vmAddress, PageCount(h.vmSize)) && Placed(h) && Covered(h.vmAddress, h.vmSize)
    requires src.Source? && |src.bytes| == h.offsetSize && src'.Source? && |src'.bytes| == h.offsetSize
    requires LoadSection(s, cr3, h, src).1.Loaded?
    ensures var s1 := LoadSection(s, cr3, h, src).0;
      var (s2, r) := LoadSection(s1, cr3, h, src');
      && (r.Loaded? <==> s1.free >= PageCount(h.vmSize))
      && (r.Failed? ==> (ReadsAs(s2.mem, cr3 / 0x1000, h.vmAddress, h.vmSize, src.bytes) <==> s1.free == 0))
  {
    CoveredContent(h);
    hide Holding, LoadSection, ReadsAs, PageCount, CanLoad, Placed, Cost, Reach, Covered, ContentFits, Page, PoolKept,
      NoFault;
    var root, n := cr3 / 0x1000, PageCount(h.vmSize);
    var s1 := LoadSection(s, cr3, h, src).0;
    LoadSectionSpec(s, cr3, h, src);
    var gs :| |gs| == n && Holding(s, s1, root, h.vmAddress, n, gs);
    LoadAgain(s, s1, cr3, h.vmAddress, n, gs);
    LoadSectionSpec(s1, cr3, h, src');
    forall j | 0 <= j <= n
      ensures Cost(s1.mem, root, h.vmAddress, 0, j) == j
    {
      NoTablesMissing(s, s1, root, h.vmAddress, gs, j);
    }
    ReachCheap(s1, root, h.vmAddress, n);
    if LoadSection(s1, cr3, h, src').1.Failed? {
      FailedLoadOver(s, cr3, h, src, h, src');
      if s1.free > 0 {
        assert Page(h.vmAddress, 0) in PageSet(h.vmAddress, n) && Page(h.vmAddress, 0) in PageSet(h.vmAddress, s1.free);
      }
    }
  }
}
