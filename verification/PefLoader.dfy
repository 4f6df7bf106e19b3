/** Loading a PEF section: back its virtual range with fresh frames and copy the content in. */
module PefLoader {
  import opened Words
  import opened Bytes
  import opened PhysicalMemory
  import opened FrameAllocator
  import opened PageTables
  import opened PagingManager
  import opened PagingProofs
  import opened PefContainer
  import opened SectionLoader
  import opened LoaderProofs
  import opened ImageProofs
  import opened Demand
  import opened Reachability

  datatype Outcome = Loaded(address: Word) | Failed(status: Status)

  datatype Source = NoSource | Source(bytes: seq<Byte>)

  /** pef_load_section; the source, if any, is the OffsetSize bytes it points to. */
  function LoadSection(s: Hal, cr3: Word, h: Header, src: Source): (Hal, Outcome) {
    if src.NoSource? then (s, Failed(InvalidData))
    else
      var (s1, status) := MapPages(s, cr3, h.vmAddress, 0, PageCount(h.vmSize));
      if status != Success then (s1, Failed(OutOfMemory))
      else if h.offsetSize > 0 then
        (s1.(mem := CopySafe(s1.mem, cr3 / 0x1000, src.bytes, h.vmAddress, h.vmSize)), Loaded(h.vmAddress))
      else (s1, Loaded(h.vmAddress))
  }

  /** The bytes of a section the blob offers. */
  function ContentOf(blob: seq<Byte>, h: Header): Source {
    if h.offsetSize > 0 && h.offset + h.offsetSize <= |blob| then Source(blob[h.offset..h.offset + h.offsetSize])
    else NoSource
  }

  /** The blob path of PEFLoader::FindSymbol, for a loaded blob and the characters of a name. */
  function FindSymbol(s: Hal, cr3: Word, blob: seq<Byte>, name: seq<Byte>, kind: int): (Hal, Outcome)
    requires |blob| < 0x1_0000_0000_0000_0000
  {
    var sect := MakeName(kind, name);
    if sect == [] then (s, Failed(InvalidData))
    else
      var found := FindSection(blob, sect, kind);
      if found.NotFound? then (s, Failed(InvalidData))
      else LoadSection(s, cr3, found.header, ContentOf(blob, found.header))
  }

  // ---------------------------------------------------------------- what loading promises

  /** The pages mapped for a size cover it from `base`.  They always do when base is page aligned. */
  predicate Covered(base: Word, size: Word) {
    base % 0x1000 + size <= PageCount(size) * 0x1000
  }

  /** A section header as the search lets through, but for the window. */
  ghost predicate Placed(h: Header) {
    && h.vmAddress != 0 && h.vmSize <= 0x400_0000 && h.offsetSize <= h.vmSize
    && CanonicalRange(h.vmAddress, 0, h.vmSize)
  }

  /** The content stays inside the pages mapped for the size. */
  predicate ContentFits(h: Header) {
    h.offsetSize > 0 ==> h.vmAddress % 0x1000 + h.offsetSize <= PageCount(h.vmSize) * 0x1000
  }

  /** Bytes from `base` on inside the pages mapped for a size: all of them when these cover the size. */
  function CoveredBytes(base: Word, size: Word): (n: nat)
    ensures n <= size
    ensures Covered(base, size) ==> n == size
  {
    var room := PageCount(size) * 0x1000 - base % 0x1000;
    if size == 0 || size <= room then size else room
  }

  lemma AlignedIsCovered(base: Word, size: Word)
    requires base % 0x1000 == 0
    ensures Covered(base, size)
  {
    Euclid(size, 0x1000);
  }

  /** The last byte's page, when the pages mapped do not cover the range, is the one after them. */
  lemma UncoveredTail(base: Word, size: Word)
    requires !Covered(base, size) && 0 < size <= 0x400_0000
    ensures PathOf(Add64(base, size - 1)) == Page(base, PageCount(size))
    ensures Page(base, PageCount(size)) !in PageSet(base, PageCount(size))
  {
    var o := base % 0x1000 + size - 1;
    var n := PageCount(size);
    Euclid(size, 0x1000);
    VaOffset(base, size - 1);
    DivIs(o, 0x1000, n, o - n * 0x1000);
    hide PathOf, Add64, PageCount, Page;
    forall k | 0 <= k < n
      ensures Page(base, k) != Page(base, n)
    {
      PagesDistinct(base, k, n);
    }
  }

  /** The pages mapped for a size cover it exactly when each of its bytes lies on one of them. */
  lemma CoveredExactly(base: Word, size: Word)
    requires 0 < size <= 0x400_0000
    ensures Covered(base, size) <==> forall off :: 0 <= off < size ==> OnPages(base, PageCount(size), off)
  {
    hide PathOf, Add64, Page, PageSet;
    var n := PageCount(size);
    CountBound(size);
    if Covered(base, size) {
      forall off | 0 <= off < size
        ensures OnPages(base, n, off)
      {
        VaOffset(base, off);
      }
    } else {
      UncoveredTail(base, size);
      assert !OnPages(base, n, size - 1);
    }
  }

  /** The byte `off` bytes past base lies on one of n pages. */
  predicate OnPages(base: Word, n: nat, off: nat) {
    PathOf(Add64(base, off)) in PageSet(base, n)
  }

  /** Reading the section through the translation gives the content, then zeros. */
  ghost predicate ReadsAs(m: Memory, root: nat, base: Word, size: nat, content: seq<Byte>) {
    forall off :: 0 <= off < size ==>
      ReadVa(m, root, Add64(base, off)) == if off < |content| then content[off] else 0
  }

  lemma CopyNothing(m: Memory, root: nat, base: Word)
    ensures CopyFrom(m, root, [], base, 0) == m && NoFault(m, root, [], base, 0)
  {
  }

  lemma CopiedReads(s0: Hal, s1: Hal, root: nat, base: Word, gs: seq<nat>, size: nat, src: seq<Byte>)
    requires Holding(s0, s1, root, base, |gs|, gs) && AllZero(s1.mem, gs)
    requires (size > 0 ==> base % 0x1000 + size <= |gs| * 0x1000) && |src| <= size && CanonicalRange(base, 0, size)
    ensures NoFault(s1.mem, root, src, base, 0)
    ensures var s2 := s1.(mem := CopyFrom(s1.mem, root, src, base, 0));
      Holding(s0, s2, root, base, |gs|, gs) && ReadsAs(s2.mem, root, base, size, src)
  {
    hide Holding, ImageByte, AllZero, ReadVa, CopyFrom, NoFault, Canonical;
    assert Add64(base, 0) == base;
    CopyNothing(s1.mem, root, base);
    if size == 0 { return; }
    CopyImage(s0, s1, root, base, gs, src, 0, 0);
    var s2 := s1.(mem := CopyFrom(s1.mem, root, src, base, 0));
    ZeroImage(s1.mem, gs);
    forall off | 0 <= off < size
      ensures ReadVa(s2.mem, root, Add64(base, off)) == if off < |src| then src[off] else 0
    {
      ReadImage(s0, s2, root, base, gs, off);
    }
  }

  lemma ZeroReads(s0: Hal, s1: Hal, root: nat, base: Word, gs: seq<nat>, size: nat)
    requires Holding(s0, s1, root, base, |gs|, gs) && AllZero(s1.mem, gs)
    requires (size > 0 ==> base % 0x1000 + size <= |gs| * 0x1000) && CanonicalRange(base, 0, size)
    ensures ReadsAs(s1.mem, root, base, size, [])
  {
    CopiedReads(s0, s1, root, base, gs, size, []);
    CopyNothing(s1.mem, root, base);
    hide Holding, ReadsAs;
  }

  /** pef_load_section, when the content stays inside the pages and the pool is reached throughout.  It succeeds exactly
      when there is a source and the free frames are at least the pages plus the tables missing for them; then the copy
      faults nowhere and every byte the pages cover sits in fresh frames and reads as the content followed by zeros.
      Otherwise no frame is left in the loader's hands and exactly the pages the free frames paid for are unmapped. */
  lemma LoadSectionSpec(s: Hal, cr3: Word, h: Header, src: Source)
    requires CanLoad(s, cr3, h.vmAddress, PageCount(h.vmSize))
    requires Placed(h) && ContentFits(h) && (src.Source? ==> |src.bytes| == h.offsetSize)
    ensures var root, n := cr3 / 0x1000, PageCount(h.vmSize);
      var (s', r) := LoadSection(s, cr3, h, src);
      && PoolKept(s', root) && s'.base == s.base && s'.end == s.end
      && r == (if src.NoSource? then Failed(InvalidData)
               else if s.free < Cost(s.mem, root, h.vmAddress, 0, n) then Failed(OutOfMemory) else Loaded(h.vmAddress))
      && (r.Loaded? ==>
            && NoFault(MapPages(s, cr3, h.vmAddress, 0, n).0.mem, root, src.bytes, h.vmAddress, 0)
            && (exists gs :: |gs| == n && Holding(s, s', root, h.vmAddress, n, gs))
            && ReadsAs(s'.mem, root, h.vmAddress, CoveredBytes(h.vmAddress, h.vmSize), src.bytes))
      && (src.NoSource? ==> s' == s)
      && (r.Failed? && src.Source? ==>
            && Reach(s, root, h.vmAddress, n) < n
            && Holding(s, s', root, h.vmAddress, Reach(s, root, h.vmAddress, n), [])
            && (s.base > 0 ==> s'.free <= n))
  {
    hide Holding, AllZero, MapPages, ReadsAs, CopyFrom, PageCount, Cost, Reach, Mapped, CoveredBytes, ContentFits,
      Clear, PoolKept, NoFault, Canonical, Sound;
    if src.Source? {
      var root, n := cr3 / 0x1000, PageCount(h.vmSize);
      CountBound(h.vmSize);
      HoldingNothing(s, root, h.vmAddress);
      MapPagesSpec(s, s, cr3, h.vmAddress, [], n);
      LoadExact(s, cr3, h.vmAddress, n);
      var (s1, status) := MapPages(s, cr3, h.vmAddress, 0, n);
      if status == Success {
        var gs :| |gs| == n && Holding(s, s1, root, h.vmAddress, n, gs) && AllZero(s1.mem, gs);
        CoveredFits(h);
        if h.offsetSize > 0 {
          CopiedReads(s, s1, root, h.vmAddress, gs, CoveredBytes(h.vmAddress, h.vmSize), src.bytes);
        } else {
          ZeroReads(s, s1, root, h.vmAddress, gs, CoveredBytes(h.vmAddress, h.vmSize));
          assert src.bytes == [];
          CopyNothing(s1.mem, root, h.vmAddress);
        }
        HoldingPool(s, LoadSection(s, cr3, h, src).0, root, h.vmAddress, n, gs);
      } else {
        HoldingPool(s, s1, root, h.vmAddress, Reach(s, root, h.vmAddress, n), []);
      }
    }
  }

  lemma CoveredFits(h: Header)
    requires ContentFits(h) && h.offsetSize <= h.vmSize
    ensures var c := CoveredBytes(h.vmAddress, h.vmSize);
      h.offsetSize <= c && (c > 0 ==> h.vmAddress % 0x1000 + c <= PageCount(h.vmSize) * 0x1000)
  {
    hide PageCount;
  }

  /** Whatever becomes of a load, it leaves everything as it was or some of its pages touched. */
  lemma AnyLoad(s: Hal, cr3: Word, h: Header, src: Source) returns (i: nat, gs: seq<nat>)
    requires CanLoad(s, cr3, h.vmAddress, PageCount(h.vmSize))
    requires Placed(h) && ContentFits(h) && (src.Source? ==> |src.bytes| == h.offsetSize)
    ensures var s' := LoadSection(s, cr3, h, src).0;
      i <= PageCount(h.vmSize) && (s' == s || Holding(s, s', cr3 / 0x1000, h.vmAddress, i, gs))
  {
    hide Holding, LoadSection, ReadsAs, PageCount, Cost, Reach, CanLoad, PoolKept, NoFault, Placed, ContentFits,
      CoveredBytes;
    LoadSectionSpec(s, cr3, h, src);
    var (s', r) := LoadSection(s, cr3, h, src);
    i, gs := 0, [];
    if r.Loaded? {
      i := PageCount(h.vmSize);
      gs :| |gs| == i && Holding(s, s', cr3 / 0x1000, h.vmAddress, i, gs);
    } else if src.Source? {
      i := Reach(s, cr3 / 0x1000, h.vmAddress, PageCount(h.vmSize));
    }
  }

  /** One load never disturbs another: whatever becomes of a second load on other pages, success or roll-back, the
      first section still reads as its content and zeros. */
  lemma LoadsIsolated(s: Hal, cr3: Word, h: Header, src: Source, h': Header, src': Source)
    requires CanLoad(s, cr3, h.vmAddress, PageCount(h.vmSize)) && Clear(s, h'.vmAddress, PageCount(h'.vmSize))
    requires Placed(h) && Covered(h.vmAddress, h.vmSize) && src.Source? && |src.bytes| == h.offsetSize
    requires Placed(h') && ContentFits(h') && (src'.Source? ==> |src'.bytes| == h'.offsetSize)
    requires PageSet(h.vmAddress, PageCount(h.vmSize)) !! PageSet(h'.vmAddress, PageCount(h'.vmSize))
    requires LoadSection(s, cr3, h, src).1.Loaded?
    ensures var s1 := LoadSection(s, cr3, h, src).0;
      var s2 := LoadSection(s1, cr3, h', src').0;
      ReadsAs(s2.mem, cr3 / 0x1000, h.vmAddress, h.vmSize, src.bytes)
  {
    CoveredContent(h);
    hide Holding, LoadSection, ReadsAs, PageCount, PageSet, Sound, Cost, Reach, CanLoad, Clear, PoolKept, NoFault,
      Placed, Covered, ContentFits;
    var root, n, n' := cr3 / 0x1000, PageCount(h.vmSize), PageCount(h'.vmSize);
    var s1 := LoadSection(s, cr3, h, src).0;
    var s2 := LoadSection(s1, cr3, h', src').0;
    LoadSectionSpec(s, cr3, h, src);
    var gs :| |gs| == n && Holding(s, s1, root, h.vmAddress, n, gs);
    HoldingSound(s, s1, root, h.vmAddress, n, gs);
    NextLoad(s, s1, cr3, h.vmAddress, n, h'.vmAddress, n');
    var i, gs' := AnyLoad(s1, cr3, h', src');
    if s2 != s1 {
      SomePages(h'.vmAddress, i, n');
      StillReads(s, s1, s2, root, h, gs, h'.vmAddress, i, gs', src.bytes);
    }
  }

  lemma CoveredContent(h: Header)
    requires Covered(h.vmAddress, h.vmSize) && h.offsetSize <= h.vmSize
    ensures ContentFits(h) && CoveredBytes(h.vmAddress, h.vmSize) == h.vmSize
  {
    hide PageCount;
  }

  /** A load after a load. */
  lemma NextLoad(s: Hal, s1: Hal, cr3: Word, base: Word, n: nat, base': Word, n': nat)
    requires CanLoad(s, cr3, base, n) && Clear(s, base', n')
    requires Sound(s1, cr3 / 0x1000) && PoolKept(s1, cr3 / 0x1000) && s1.base == s.base && s1.end == s.end
    ensures CanLoad(s1, cr3, base', n')
  {
    hide Sound, PoolKept, Reach, Clear;
    ClearSame(s, s1, base', n');
    ClearLess(s1, base', Reach(s1, cr3 / 0x1000, base', n'), n');
  }

  /** A load of the same pages after one that succeeded. */
  lemma LoadAgain(s: Hal, s1: Hal, cr3: Word, base: Word, n: nat, gs: seq<nat>)
    requires CanLoad(s, cr3, base, n) && s.free >= Cost(s.mem, cr3 / 0x1000, base, 0, n)
    requires Holding(s, s1, cr3 / 0x1000, base, n, gs)
    ensures CanLoad(s1, cr3, base, n)
  {
    hide Holding, Cost, Clear, PoolKept, Sound;
    HoldingSound(s, s1, cr3 / 0x1000, base, n, gs);
    HoldingPool(s, s1, cr3 / 0x1000, base, n, gs);
    NextLoad(s, s1, cr3, base, n, base, n);
  }

  lemma {:induction false} SomePages(base: Word, i: nat, n: nat)
    requires i <= n
    ensures PageSet(base, i) <= PageSet(base, n)
    decreases n - i
  {
    hide Page;
    if i < n {
      SomePages(base, i, n - 1);
    }
  }

  lemma StillReads(s: Hal, s1: Hal, s2: Hal, root: nat, h: Header, gs: seq<nat>, base': Word, i: nat, gs': seq<nat>,
                   content: seq<Byte>)
    requires |gs| == PageCount(h.vmSize) && Covered(h.vmAddress, h.vmSize)
    requires Holding(s, s1, root, h.vmAddress, |gs|, gs) && Holding(s1, s2, root, base', i, gs')
    requires PageSet(base', i) !! PageSet(h.vmAddress, |gs|)
    requires ReadsAs(s1.mem, root, h.vmAddress, h.vmSize, content)
    ensures ReadsAs(s2.mem, root, h.vmAddress, h.vmSize, content)
  {
    hide Holding, PageCount, PageSet, ReadVa;
    HoldingEvolves(s1, s2, root, base', i, gs');
    forall off | 0 <= off < h.vmSize
      ensures ReadVa(s2.mem, root, Add64(h.vmAddress, off)) == ReadVa(s1.mem, root, Add64(h.vmAddress, off))
    {
      LoadKept(s, s1, s2, root, h.vmAddress, gs, PageSet(base', i), FrameSet(gs'), off);
    }
  }

  lemma CountBound(size: Word)
    requires size <= 0x400_0000
    ensures PageCount(size) <= 0x4000
  {
  }

  /** The pool is clear of the image window. */
  predicate OffWindow(s: Hal) {
    s.end <= 0x4000_0000 || s.base >= 0x4400_0000
  }

  /** A section the search lets through can be loaded over any pool clear of the window. */
  lemma OfferedClear(s: Hal, blob: seq<Byte>, sect: seq<Byte>, kind: int, h: Header)
    requires Offers(blob, sect, kind, h) && OffWindow(s)
    ensures Placed(h) && Clear(s, h.vmAddress, PageCount(h.vmSize))
  {
    hide *;
    OfferedContent(blob, sect, kind, h);
    WindowPlaced(h);
    WindowClear(s, h.vmAddress, h.vmSize);
  }

  lemma WindowPlaced(h: Header)
    requires 1 <= h.vmSize && 0x4000_0000 <= h.vmAddress && h.vmAddress + h.vmSize <= 0x4400_0000
    requires h.offsetSize <= h.vmSize
    ensures Placed(h)
  {
    forall j | 0 <= j < h.vmSize
      ensures Canonical(Add64(h.vmAddress, j))
    {
      assert Add64(h.vmAddress, j) == h.vmAddress + j;
    }
  }

  /** A range inside the window is clear of a pool that is. */
  lemma WindowClear(s: Hal, base: Word, size: Word)
    requires OffWindow(s) && 0x4000_0000 <= base && base + size <= 0x4400_0000
    ensures Clear(s, base, PageCount(size))
  {
    hide PageCount, Page, FirstPage;
    forall k | 0 <= k < PageCount(size)
      ensures !PoolPage(s, Page(base, k))
    {
      WindowPage(base, size, k);
    }
  }

  /** Pages of a range inside the window. */
  lemma WindowPage(base: Word, size: Word, k: nat)
    requires 0x4000_0000 <= base && base + size <= 0x4400_0000 && k < PageCount(size)
    ensures 0x4_0000 <= FirstPage(Page(base, k)) < 0x4_4000
  {
    Euclid(base, 0x1000);
    Euclid(size, 0x1000);
    assert base / 0x1000 + k < 0x4_4000;
    PageNumber(base, k);
    DivIs(base / 0x1000 + k, 0x10_0000_0000, 0, base / 0x1000 + k);
    PathOfPage(PageAddr(base, k));
    hide PathOf, PageAddr, FirstPage;
    PageIs(base, k);
  }

  /** FindSymbol on a blob, for every blob and name: it loads exactly when the name can be made, the blob offers a
      section with content under it, and the free frames are at least its pages plus the tables missing for them; a
      section without content is refused, whatever its virtual size, and nothing changes. */
  lemma FindSymbolSpec(s: Hal, cr3: Word, blob: seq<Byte>, name: seq<Byte>, kind: int)
    requires cr3 / 0x1000 != 0 && Sound(s, cr3 / 0x1000) && PoolKept(s, cr3 / 0x1000) && OffWindow(s)
    requires |blob| < 0x1_0000_0000_0000_0000
    ensures var (s', r) := FindSymbol(s, cr3, blob, name, kind);
      var sect := MakeName(kind, name);
      && (r == Failed(InvalidData) <==>
            sect == [] || forall h :: Offers(blob, sect, kind, h) ==> h.offsetSize == 0)
      && (r == Failed(InvalidData) ==> s' == s)
      && (r != Failed(InvalidData) ==>
            var h := FindSection(blob, sect, kind).header;
            && Offers(blob, sect, kind, h)
            && Placed(h) && CanLoad(s, cr3, h.vmAddress, PageCount(h.vmSize))
            && LoopKept(s, cr3, h.vmAddress, 0, PageCount(h.vmSize))
            && (s', r) == LoadSection(s, cr3, h, ContentOf(blob, h))
            && (r.Loaded? <==> s.free >= Cost(s.mem, cr3 / 0x1000, h.vmAddress, 0, PageCount(h.vmSize))))
  {
    hide Offers, FindSection, MakeName, MapPages, Cost, PageCount, Sound, PoolKept, Clear, Reach, Placed, LoopKept;
    var sect := MakeName(kind, name);
    if sect != [] {
      var found := FindSection(blob, sect, kind);
      forall h
        ensures found == Found(h) <==> Offers(blob, sect, kind, h)
      {
        FindSectionExact(blob, sect, kind, h);
      }
      if found.Found? {
        var h := found.header;
        var n := PageCount(h.vmSize);
        OfferedContent(blob, sect, kind, h);
        OfferedClear(s, blob, sect, kind, h);
        CountBound(h.vmSize);
        LoadExact(s, cr3, h.vmAddress, n);
        ClearLess(s, h.vmAddress, Reach(s, cr3 / 0x1000, h.vmAddress, n), n);
        LoopExact(s, cr3, h.vmAddress, n);
      }
    }
  }

  lemma OfferedContent(blob: seq<Byte>, sect: seq<Byte>, kind: int, h: Header)
    requires Offers(blob, sect, kind, h)
    ensures h.offsetSize > 0 <==> ContentOf(blob, h).Source?
    ensures h.offsetSize > 0 ==> |ContentOf(blob, h).bytes| == h.offsetSize
    ensures 1 <= h.vmSize && 0x4000_0000 <= h.vmAddress && h.vmAddress + h.vmSize <= 0x4400_0000
    ensures h.offsetSize <= h.vmSize
  {
    hide IsFirst, HeaderAt;
  }
}
