/** Inputs at which the code does not do what its callers may expect. */
module Witnesses {
  import opened Words
  import opened Bytes
  import opened Packing
  import opened PhysicalMemory
  import opened FrameAllocator
  import opened PageTables
  import opened PagingManager
  import opened PagingProofs
  import opened KernelTables
  import opened Boot
  import opened SectionLoader
  import opened LoaderProofs
  import opened ImageProofs
  import opened Demand
  import opened Reachability
  import opened PefContainer
  import opened PefLoader
  import opened Pe32Loader
  import opened Pe32Proofs
  import opened PefLayout
  import opened PeLayout
  import opened LoadEffects
  import opened KernelRuns

  // ---------------------------------------------------------------- files

  /** The headers of a PE32+ file for this kernel with one section. */
  function FileDos(): DosHeader { DosHeader('M' as int, 'Z' as int, [0, 0], seq(29, _ => 0), 0) }

  function FileExec(): ExecHeader { ExecHeader(0x4550, 0x8664, 1, 0, 0, 0, 96, 0) }

  function FileOptional(base: Word, size: U32): OptionalHeader {
    OptionalHeader(0x20B, 0, 0, 0, 0, 0, 0, 0, base, 0, 0, 0, 0, 0, 0, 0, 0, 0, size, 0, 0, 0x11, 0, 0, 0, 0, 0, 0, 0)
  }

  function FileSection(va: U32, raw: U32, at: U32): SectionHeader {
    SectionHeader(seq(8, _ => 0), 0, va, raw, at, 0, 0, 0, 0, 0)
  }

  /** The file: headers, one section header, and the rest. */
  function PeFile(base: Word, size: U32, h: SectionHeader, rest: seq<Byte>): (blob: seq<Byte>)
    requires h.Ok()
    ensures |blob| == 288 + |rest|
  {
    PackDos(FileDos()) + PackExec(FileExec()) + PackOptional(FileOptional(base, size)) + PackSections([h]) + rest
  }

  lemma PeFileHas(base: Word, size: U32, h: SectionHeader, rest: seq<Byte>)
    requires h.Ok()
    ensures HasHeaders(PeFile(base, size, h, rest), FileDos(), FileExec(), FileOptional(base, size))
    ensures HasSections(PeFile(base, size, h, rest), FileExec(), [h])
    ensures ForKernel(FileDos(), FileExec(), FileOptional(base, size)) <==> 1 <= size <= 0x400_0000
  {
    hide PackDos, PackExec, PackOptional, PackSections;
    var blob := PeFile(base, size, h, rest);
    assert blob[..248] == PackDos(FileDos()) + PackExec(FileExec()) + PackOptional(FileOptional(base, size));
    assert blob[248..288] == PackSections([h]);
  }

  // ---------------------------------------------------------------- images the loader should not take

  /** A PE32+ image of one byte, based at `at` times 2^16, with one section without content. */
  function TinyImage(at: Byte): (blob: seq<Byte>)
    ensures |blob| == 288
  {
    PeFile(at * 0x1_0000, 1, FileSection(0, 0, 0), [])
  }

  lemma TinyIs(at: Byte)
    ensures var l := Construct(TinyImage(at));
      && Ready(l) && l.blob == TinyImage(at) && PlacedWell(ParseImage(l.blob))
      && AllFit(ParseImage(l.blob), 288, |ParseImage(l.blob).sections|)
      && ParseImage(l.blob).base == at * 0x1_0000 && PageCount(ParseImage(l.blob).size) == 1
  {
    hide *;
    var base: Word := at * 0x1_0000;
    var blob, o, h := TinyImage(at), FileOptional(base, 1), FileSection(0, 0, 0);
    FileParts(base, 1, 0, 0, 0);
    TinyFile(at);
    PeFileHas(base, 1, h, []);
    ConstructExact(blob, FileDos(), FileExec(), o);
    ReadyExact(blob, FileDos(), FileExec(), o);
    ParseIs(blob, FileDos(), FileExec(), o, [h]);
    TinyPlaced(at);
  }

  lemma TinyFile(at: Byte)
    ensures TinyImage(at) == PeFile(at * 0x1_0000, 1, FileSection(0, 0, 0), [])
  {
  }

  lemma FileParts(base: Word, size: U32, va: U32, raw: U32, at: U32)
    ensures var o, h := FileOptional(base, size), FileSection(va, raw, at);
      && h.Ok() && h.virtualAddress == va && h.sizeOfRawData == raw && h.pointerToRawData == at
      && o.imageBase == base && o.sizeOfImage == size
      && FileExec().numberOfSections == 1 && FileExec().sizeOfOptionalHeader == 96
  {
  }

  lemma TinyPlaced(at: Byte)
    ensures var img := ImageOf(FileOptional(at * 0x1_0000, 1), [FileSection(0, 0, 0)]);
      PlacedWell(img) && AllFit(img, 288, |img.sections|) && PageCount(img.size) == 1
  {
    DivIs(at * 0x1_0000, 0x1000, at * 0x10, 0);
    AlignedIsCovered(at * 0x1_0000, 1);
  }

  /** One page needs at most four frames. */
  lemma OnePageCost(m: Memory, root: nat, base: Word)
    ensures Cost(m, root, base, 0, 1) <= 4
  {
    var va := PageAddr(base, 0);
    var way := WayFrom(va, 0);
    assert Ways(base, 0, 1) == way + Ways(base, 1, 1) == way;
    assert WayFrom(va, 3) == {} && WayFrom(va, 2) == {PlaceAt(va, 3)};
    assert WayFrom(va, 1) == {PlaceAt(va, 2)} + WayFrom(va, 2);
    hide IsDir, PlaceAt, PageAddr;
    var missing := Absent(m, root, way);
    assert missing <= way;
    assert |way| == |missing| + |way - missing|;
  }

  /** A machine with 17 MiB of memory, 16 of them handed over, starts up with frames to spare; only its first 4 GiB are
      mapped, each page to itself. */
  lemma SmallMachine(mem: Memory)
    requires |mem| == 0x1100
    ensures var (s, cr3) := SetUp(mem, 0x10_0000, 0x100_0000);
      && Running(s, cr3, 0x1_0000_0000) && Reaching(s, cr3)
      && s.free == 2042 && s.base == 0x90_0000 && s.end == 0x110_0000
      && Used(s) == Tables(s.mem, cr3 / 0x1000) && IdentityMap(s.mem, cr3 / 0x1000, 0x10_0000)
  {
    SmallCarve();
    hide CarveUp, Used, Tables, Sound, IdentityMap, Reaching, Init, InitKernelTables;
    var (s, cr3) := SetUp(mem, 0x10_0000, 0x100_0000);
    SmallTables(mem);
    FourGiBs();
    IdentityIsKept(s.mem, cr3 / 0x1000, 0x1_0000_0000);
    hide IdentityKept;
    RunningReaches(s, cr3, 0x1_0000_0000);
  }

  lemma FourGiBs()
    ensures GiBs(0x1_0000_0000) == 4 && Needed(4) == 6
  {
  }

  lemma SmallTables(mem: Memory)
    requires |mem| == 0x1100
    ensures var (s, cr3) := InitKernelTables(Init(Reset(mem), 0x90_0000, 0x80_0000), 0x1_0000_0000);
      && cr3 / 0x1000 != 0 && cr3 % 0x1000 == 0 && Sound(s, cr3 / 0x1000)
      && s.free == 2042 && s.base == 0x90_0000 && s.end == 0x110_0000
      && Used(s) == Tables(s.mem, cr3 / 0x1000) && IdentityMap(s.mem, cr3 / 0x1000, 0x10_0000)
  {
    SmallPool(mem);
    FourGiBs();
    hide *;
    TablesFrom(Init(Reset(mem), 0x90_0000, 0x80_0000), 0x1_0000_0000);
  }

  lemma TablesFrom(s0: Hal, limit: Word)
    requires PmmOk(s0) && Used(s0) == {} && s0.free == 2048 && s0.base > 0 && GiBs(limit) == 4 && Needed(4) == 6
    requires limit <= 0x1_0000_0000
    ensures var (s, cr3) := InitKernelTables(s0, limit);
      && cr3 / 0x1000 != 0 && cr3 % 0x1000 == 0 && Sound(s, cr3 / 0x1000)
      && s.free == 2042 && s.base == s0.base && s.end == s0.end
      && Used(s) == Tables(s.mem, cr3 / 0x1000) && IdentityMap(s.mem, cr3 / 0x1000, 0x10_0000)
  {
    hide *;
    InitKernelTablesSpec(s0, limit);
    UsedCount(s0);
    UsedCount(InitKernelTables(s0, limit).0);
  }

  lemma SmallPool(mem: Memory)
    requires |mem| == 0x1100
    ensures var s := Init(Reset(mem), 0x90_0000, 0x80_0000);
      PmmOk(s) && Used(s) == {} && s.free == 2048 && s.base == 0x90_0000 && s.end == 0x110_0000
  {
    InitSpec(mem, 0x90_0000, 0x80_0000);
    assert WholeFrames(0x90_0000, 0x80_0000) == 2048;
    hide PmmOk, Used, FreeList;
  }

  lemma SmallCarve()
    ensures CarveUp(0x10_0000, 0x100_0000) == Carve(0x10_0000, 0x80_0000, 0x90_0000, 0x80_0000, 0x1_0000_0000)
  {
  }

  /** Page 0 is no page of the pool. */
  lemma ZeroClear(s: Hal)
    requires s.base == 0x90_0000
    ensures Clear(s, 0, 1)
  {
    TinyPage(0);
    hide Page, FirstPage;
  }

  lemma TinyPage(at: Byte)
    ensures var p := Page(at * 0x1_0000, 0);
      Depth(p) == 4 && FirstPage(p) == at * 0x10
  {
    PageFrom(at * 0x1_0000, at * 0x10);
  }

  lemma PageFrom(base: Word, n: nat)
    requires base == n * 0x1000 && n < 0x10_0000_0000
    ensures Depth(Page(base, 0)) == 4 && FirstPage(Page(base, 0)) == n
  {
    FirstAddr(base);
    hide *;
    DivIs(base, 0x1000, n, 0);
    DivIs(n, 0x10_0000_0000, 0, n);
    PathOfPage(base);
    PageIs(base, 0);
  }

  lemma FirstAddr(base: Word)
    ensures PageAddr(base, 0) == base
  {
  }

  /** Each page costs a frame. */
  lemma PagesCost(m: Memory, root: nat, base: Word, n: nat)
    ensures Cost(m, root, base, 0, n) >= n
  {
    hide Absent, Ways;
  }

  /** One page for which there are four frames. */
  lemma OneReach(s: Hal, root: nat, base: Word)
    requires s.free >= 4
    ensures Reach(s, root, base, 1) == 1 && s.free >= Cost(s.mem, root, base, 0, 1)
  {
    OnePageCost(s.mem, root, base);
    hide Cost;
  }

  /** The image at base 0 loads, and the loader is as if it had not: the next call loads it again. */
  lemma ForgottenImage(mem: Memory)
    requires |mem| == 0x1100
    ensures var (s, cr3) := SetUp(mem, 0x10_0000, 0x100_0000);
      var l := Construct(TinyImage(0));
      && l.blob == TinyImage(0)
      && LoadImage(s, cr3, l).2 == Loaded(0) && LoadImage(s, cr3, l).1 == l
  {
    hide SetUp, LoadImage, Construct, TinyImage, Sound, Ready, PlacedWell, ParseImage, AllFit, PageCount, Cost, Reach,
      Holding, ImageReads, Running, PoolKept, Clear, SectionsNoFault, Used, Tables, IdentityMap;
    SmallMachine(mem);
    var (s, cr3) := SetUp(mem, 0x10_0000, 0x100_0000);
    var l := Construct(TinyImage(0));
    TinyIs(0);
    ZeroClear(s);
    OneReach(s, cr3 / 0x1000, 0);
    LoadImageSpec(s, cr3, l);
    Forgotten(s, cr3, l);
  }

  lemma Forgotten(s: Hal, cr3: Word, l: Loader)
    requires |l.blob| < 0x1_0000_0000_0000_0000 && Ready(l) && LoadImage(s, cr3, l).2.Loaded?
    requires ParseImage(l.blob).base == 0
    ensures LoadImage(s, cr3, l).1 == l && LoadImage(s, cr3, l).2 == Loaded(0)
  {
    LoadImageTwice(s, cr3, l, s);
    hide MapPages, CopySections, ParseImage, TableOk;
  }

  /** The same image takes page 0 away from the identity map: a loader that does not compare the base with the window
      breaks what the kernel relies on. */
  lemma IdentityBroken(mem: Memory)
    requires |mem| == 0x1100
    ensures var (s, cr3) := SetUp(mem, 0x10_0000, 0x100_0000);
      var l := Construct(TinyImage(0));
      && l.blob == TinyImage(0)
      && Running(s, cr3, 0x1_0000_0000) && !Running(LoadImage(s, cr3, l).0, cr3, 0x1_0000_0000)
  {
    hide SetUp, LoadImage, TinyImage, Construct, Sound, Running, Ready, PlacedWell, ParseImage, AllFit, PageCount, Cost,
      Reach, Holding, ImageReads, Page, PoolKept, Clear, SectionsNoFault, Used, Tables, IdentityMap, FirstPage;
    SmallMachine(mem);
    var (s, cr3) := SetUp(mem, 0x10_0000, 0x100_0000);
    var l := Construct(TinyImage(0));
    TinyIs(0);
    ZeroClear(s);
    OneReach(s, cr3 / 0x1000, 0);
    LoadImageSpec(s, cr3, l);
    var gs :| |gs| == 1 && Holding(s, LoadImage(s, cr3, l).0, cr3 / 0x1000, 0, 1, gs);
    HoldingRuns(s, LoadImage(s, cr3, l).0, cr3, 0x1_0000_0000, 0, 1, gs);
    TinyPage(0);
  }

  /** Based at 0x90_0000 it takes the first page of the pool, so the kernel loses its tables while it loads. */
  lemma PoolTaken(mem: Memory)
    requires |mem| == 0x1100
    ensures var (s, cr3) := SetUp(mem, 0x10_0000, 0x100_0000);
      var l := Construct(TinyImage(0x90));
      && l.blob == TinyImage(0x90) && Ready(l) && ParseImage(l.blob).base == s.base == 0x90_0000
      && Running(s, cr3, 0x1_0000_0000) && !ImageKept(s, cr3, l)
  {
    hide SetUp, TinyImage, Construct, Sound, Running, Ready, PlacedWell, ParseImage, AllFit, PageCount, Cost, Reach,
      Page, FirstPage, PoolKept, Used, Tables, IdentityMap, ImageKept;
    SmallMachine(mem);
    var (s, cr3) := SetUp(mem, 0x10_0000, 0x100_0000);
    TinyIs(0x90);
    OneReach(s, cr3 / 0x1000, 0x90_0000);
    ImageKeptExact(s, cr3, Construct(TinyImage(0x90)));
    TinyPage(0x90);
    assert PoolPage(s, Page(0x90_0000, 0));
  }

  // ---------------------------------------------------------------- one section after another

  /** A section of that many pages at the start of the window, its content one byte. */
  function WindowSection(pages: nat): (h: Header)
    requires pages <= 0x4000
  {
    Header([], 1, 0xE, 0, 1, 0x4000_0000, pages * 0x1000)
  }

  lemma WindowPlaced(s: Hal, pages: nat)
    requires 1 <= pages <= 0x4000 && OffWindow(s)
    ensures var h := WindowSection(pages);
      Placed(h) && ContentFits(h) && Covered(h.vmAddress, h.vmSize) && PageCount(h.vmSize) == pages
    ensures Clear(s, 0x4000_0000, pages)
  {
    var h := WindowSection(pages);
    DivIs(h.vmSize, 0x1000, pages, 0);
    assert PageCount(h.vmSize) == pages;
    AlignedIsCovered(h.vmAddress, h.vmSize);
    hide PageCount;
    WindowClear(s, h.vmAddress, h.vmSize);
  }

  /** A page of it loads wherever four frames are free, and takes no more than these. */
  lemma OneLoads(s: Hal, cr3: Word, src: Source)
    requires Reaching(s, cr3) && s.free >= 4 && src.Source? && |src.bytes| == 1
    ensures var h := WindowSection(1);
      var (s1, r) := LoadSection(s, cr3, h, src);
      && r.Loaded? && Reaching(s1, cr3) && s.free - 4 <= s1.free < s.free && s1.base == s.base && s1.end == s.end
      && CanLoad(s, cr3, h.vmAddress, 1) && exists f :: Holding(s, s1, cr3 / 0x1000, h.vmAddress, 1, [f])
  {
    hide Holding, MapPages, ReadsAs, PageCount, Cost, Reach, CoveredBytes, ContentFits, Clear, PoolKept, NoFault,
      Canonical, Sound, Placed, Covered, CopySafe;
    var h, root := WindowSection(1), cr3 / 0x1000;
    WindowPlaced(s, 1);
    OneReach(s, root, h.vmAddress);
    OnePageCost(s.mem, root, h.vmAddress);
    LoadSectionSpec(s, cr3, h, src);
    LoadTakes(s, cr3, h.vmAddress, 0, 1);
    PagesCost(s.mem, root, h.vmAddress, 1);
    var s1 := LoadSection(s, cr3, h, src).0;
    var gs :| |gs| == 1 && Holding(s, s1, root, h.vmAddress, 1, gs);
    assert gs == [gs[0]];
    Reachability.HoldingSound(s, s1, root, h.vmAddress, 1, gs);
  }

  /** Loaded twice, as two lookups of its symbol do, it loses a frame: the kernel had none to lose before. */
  lemma LostFrame(mem: Memory, src: Source)
    requires |mem| == 0x1100 && src.Source? && |src.bytes| == 1
    ensures var (s, cr3) := SetUp(mem, 0x10_0000, 0x100_0000);
      var h := WindowSection(1);
      var (s1, r1) := LoadSection(s, cr3, h, src);
      var (s2, r2) := LoadSection(s1, cr3, h, src);
      && r1.Loaded? && r2.Loaded?
      && Owned(s, cr3 / 0x1000, 0x1_0000_0000) && !Owned(s2, cr3 / 0x1000, 0x1_0000_0000)
  {
    hide SetUp, Running, Used, Tables, IdentityMap, LoadSection, Holding, Placed, Covered, ContentFits, PageCount,
      CanLoad, Reaching, Claims, FirstPage;
    SmallMachine(mem);
    var (s, cr3) := SetUp(mem, 0x10_0000, 0x100_0000);
    var h, root := WindowSection(1), cr3 / 0x1000;
    WindowReaching(s, cr3);
    OneLoads(s, cr3, src);
    var s1 := LoadSection(s, cr3, h, src).0;
    OneLoads(s1, cr3, src);
    var f :| Holding(s, s1, root, h.vmAddress, 1, [f]);
    HeldLoose(s, s1, root, h.vmAddress, f);
    ReloadStrands(s, cr3, 0x1_0000_0000, h, src, src, f);
    forall p
      ensures !Claims(s.mem, root, 0x1_0000_0000, p, f)
    {
      NotClaimed(s, root, p, f);
    }
  }

  lemma WindowReaching(s: Hal, cr3: Word)
    requires Reaching(s, cr3)
    ensures var h := WindowSection(1);
      Placed(h) && ContentFits(h) && PageCount(h.vmSize) == 1
  {
    WindowPlaced(s, 1);
    hide Reaching, Placed, ContentFits, PageCount;
  }

  lemma HeldLoose(s: Hal, s1: Hal, root: nat, base: Word, f: nat)
    requires Holding(s, s1, root, base, 1, [f])
    ensures f in Used(s1) && f !in Tables(s1.mem, root) && f !in Used(s) && s.base <= f * 0x1000 < s.end
  {
    HoldingEvolves(s, s1, root, base, 1, [f]);
    hide Holding, Used, Tables, Evolves;
    assert f in FrameSet([f]) by { FrameIn([f], 0); }
    LooseFrames(s, s1, root, PageSet(base, 1), FrameSet([f]), f);
    HeldNotForeign(s, s1, root, PageSet(base, 1), FrameSet([f]), f);
  }

  /** At start-up no page the kernel does not rely on shows a frame of the pool. */
  lemma NotClaimed(s: Hal, root: nat, p: Path, f: nat)
    requires IdentityMap(s.mem, root, 0x10_0000) && 0x90_0000 <= f * 0x1000 < 0x110_0000
    ensures !Claims(s.mem, root, 0x1_0000_0000, p, f)
  {
    hide Resolve, FirstPage;
  }

  /** After it was loaded, a section of 64 MiB at the same address fails, and its roll-back unmaps the first one. */
  lemma LostSection(mem: Memory, src: Source)
    requires |mem| == 0x1100 && src.Source? && |src.bytes| == 1
    ensures var (s, cr3) := SetUp(mem, 0x10_0000, 0x100_0000);
      var h := WindowSection(1);
      var (s1, r1) := LoadSection(s, cr3, h, src);
      var (s2, r2) := LoadSection(s1, cr3, WindowSection(0x4000), src);
      && r1.Loaded? && r2.Failed?
      && ReadsAs(s1.mem, cr3 / 0x1000, h.vmAddress, h.vmSize, src.bytes)
      && !ReadsAs(s2.mem, cr3 / 0x1000, h.vmAddress, h.vmSize, src.bytes)
  {
    hide SetUp, Running, Used, Tables, IdentityMap, LoadSection, Holding, Placed, Covered, ContentFits, PageCount,
      CanLoad, Reaching, ReadsAs, Cost, PageSet, CoveredBytes, NoFault, PoolKept;
    SmallMachine(mem);
    var (s, cr3) := SetUp(mem, 0x10_0000, 0x100_0000);
    var h, h', root := WindowSection(1), WindowSection(0x4000), cr3 / 0x1000;
    OneLoads(s, cr3, src);
    OneReads(s, cr3, src);
    var s1 := LoadSection(s, cr3, h, src).0;
    BigFails(s1, cr3, src);
    OneLoads(s1, cr3, src);
    WindowReaching(s, cr3);
    FailedLoadOver(s, cr3, h, src, h', src);
    BothFirst(Reach(s1, root, 0x4000_0000, 0x4000));
  }

  lemma OneReads(s: Hal, cr3: Word, src: Source)
    requires Reaching(s, cr3) && s.free >= 4 && src.Source? && |src.bytes| == 1
    ensures var h := WindowSection(1);
      && ReadsAs(LoadSection(s, cr3, h, src).0.mem, cr3 / 0x1000, h.vmAddress, h.vmSize, src.bytes)
      && Covered(h.vmAddress, h.vmSize)
  {
    var h := WindowSection(1);
    OneLoads(s, cr3, src);
    WindowPlaced(s, 1);
    CoveredContent(h);
    hide LoadSection, Holding, Placed, Covered, ContentFits, PageCount, CanLoad, ReadsAs, Cost, Reach, CoveredBytes,
      NoFault, PoolKept, Reaching;
    LoadSectionSpec(s, cr3, h, src);
  }

  lemma BigFails(s: Hal, cr3: Word, src: Source)
    requires Reaching(s, cr3) && 4 <= s.free < 0x4000 && src.Source? && |src.bytes| == 1
    ensures var h := WindowSection(0x4000);
      && CanLoad(s, cr3, h.vmAddress, PageCount(h.vmSize)) && PageCount(h.vmSize) == 0x4000
      && Placed(h) && ContentFits(h)
      && LoadSection(s, cr3, h, src).1.Failed?
      && Reach(s, cr3 / 0x1000, 0x4000_0000, 0x4000) >= 1
  {
    var h, root := WindowSection(0x4000), cr3 / 0x1000;
    WindowPlaced(s, 0x4000);
    hide LoadSection, Holding, Placed, Covered, ContentFits, PageCount, ReadsAs, Cost, Reach, CoveredBytes, NoFault,
      PoolKept, Clear, Sound;
    ClearLess(s, 0x4000_0000, Reach(s, root, 0x4000_0000, 0x4000), 0x4000);
    PagesCost(s.mem, root, 0x4000_0000, 0x4000);
    LoadSectionSpec(s, cr3, h, src);
    OneReach(s, root, 0x4000_0000);
    ReachAtLeast(s, root, 0x4000_0000, 1, 0x4000);
  }

  lemma {:induction false} ReachAtLeast(s: Hal, root: nat, base: Word, j: nat, n: nat)
    requires j <= n && s.free >= Cost(s.mem, root, base, 0, j)
    ensures Reach(s, root, base, n) >= j
    decreases n
  {
    hide Cost;
    if n > j {
      ReachAtLeast(s, root, base, j, n - 1);
    }
  }

  lemma BothFirst(i: nat)
    requires i >= 1
    ensures !(PageSet(0x4000_0000, 1) !! PageSet(0x4000_0000, i))
  {
    hide Page;
    assert Page(0x4000_0000, 0) in PageSet(0x4000_0000, 1) && Page(0x4000_0000, 0) in PageSet(0x4000_0000, i);
  }

  // ---------------------------------------------------------------- a file that loads

  /** A file of 1536 bytes with an image of three pages at the start of the window and one section of 512 bytes: on the
      small machine it loads, and byte `0x1000 + k` of the image is byte `0x400 + k` of the file. */
  lemma LoadedImage(mem: Memory, rest: seq<Byte>)
    requires |mem| == 0x1100 && |rest| == 0x600 - 288
    ensures var (s, cr3) := SetUp(mem, 0x10_0000, 0x100_0000);
      var h := FileSection(0x1000, 0x200, 0x400);
      h.Ok() &&
      var blob := PeFile(0x4000_0000, 0x3000, h, rest);
      Construct(blob).blob == blob &&
      var (s', l', r) := LoadImage(s, cr3, Construct(blob));
      && r == Loaded(0x4000_0000)
      && forall k :: 0 <= k < 0x200 ==> ReadVa(s'.mem, cr3 / 0x1000, PageTwo(k)) == blob[0x400 + k]
  {
    hide *;
    var (s, cr3) := SetUp(mem, 0x10_0000, 0x100_0000);
    var o, h := FileOptional(0x4000_0000, 0x3000), FileSection(0x1000, 0x200, 0x400);
    FileParts(0x4000_0000, 0x3000, 0x1000, 0x200, 0x400);
    var blob := PeFile(0x4000_0000, 0x3000, h, rest);
    SmallMachine(mem);
    PeFileHas(0x4000_0000, 0x3000, h, rest);
    ReachingParts(s, cr3);
    ThreePages(s, cr3);
    ThreePlaced();
    LaidOutLoads(s, cr3, blob, FileDos(), FileExec(), o, [h]);
    ThreeInside(|blob|);
    ImageBytes(LoadImage(s, cr3, Construct(blob)).0.mem, cr3 / 0x1000, blob);
  }

  /** Addresses on the first page of the window, and from the second one on. */
  function PageOne(k: nat): Word
    requires k < 0x1000
  {
    0x4000_0000 + k
  }

  function PageTwo(k: nat): Word
    requires k < 0x1000
  {
    0x4000_1000 + k
  }

  lemma ReachingParts(s: Hal, cr3: Word)
    requires Reaching(s, cr3)
    ensures cr3 / 0x1000 != 0 && Sound(s, cr3 / 0x1000) && PoolKept(s, cr3 / 0x1000) && OffWindow(s)
  {
  }

  lemma ThreePages(s: Hal, cr3: Word)
    requires Reaching(s, cr3) && s.free >= 12
    ensures PageCount(0x3000) == 3
    ensures CanLoad(s, cr3, 0x4000_0000, 3) && s.free >= Cost(s.mem, cr3 / 0x1000, 0x4000_0000, 0, 3)
  {
    var root := cr3 / 0x1000;
    assert PageCount(0x3000) == 3;
    WindowClear(s, 0x4000_0000, 0x3000);
    ClearLess(s, 0x4000_0000, Reach(s, root, 0x4000_0000, 3), 3);
    ThreeCost(s.mem, root, 0x4000_0000);
    hide Sound, PoolKept, Clear, Cost, Reach;
  }

  /** Three pages need at most twelve frames. */
  lemma ThreeCost(m: Memory, root: nat, base: Word)
    ensures Cost(m, root, base, 0, 3) <= 12
  {
    var a, b, c := WayFrom(PageAddr(base, 0), 0), WayFrom(PageAddr(base, 1), 0), WayFrom(PageAddr(base, 2), 0);
    assert Ways(base, 2, 3) == c + Ways(base, 3, 3) == c;
    assert Ways(base, 1, 3) == b + Ways(base, 2, 3);
    assert Ways(base, 0, 3) == a + Ways(base, 1, 3);
    WayCount(PageAddr(base, 0));
    WayCount(PageAddr(base, 1));
    WayCount(PageAddr(base, 2));
    hide WayFrom, PageAddr, Absent, Ways;
    AbsentFew(m, root, a + (b + c));
    BothFew(b, c);
    BothFew(a, b + c);
  }

  lemma AbsentFew(m: Memory, root: nat, places: set<Path>)
    ensures |Absent(m, root, places)| <= |places|
  {
    hide IsDir;
    var missing := Absent(m, root, places);
    assert missing <= places;
    assert |places| == |missing| + |places - missing|;
  }

  lemma BothFew(a: set<Path>, b: set<Path>)
    ensures |a + b| <= |a| + |b|
  {
    assert a + b == a + (b - a);
    assert |a + b| == |a| + |b - a|;
    assert |b| == |b - a| + |b * a|;
  }

  lemma WayCount(va: Word)
    ensures |WayFrom(va, 0)| <= 3
  {
    assert WayFrom(va, 3) == {} && WayFrom(va, 2) == {PlaceAt(va, 3)};
    assert WayFrom(va, 1) == {PlaceAt(va, 2)} + WayFrom(va, 2);
    hide PlaceAt;
  }

  lemma ThreePlaced()
    ensures PlacedWell(ImageOf(FileOptional(0x4000_0000, 0x3000), [FileSection(0x1000, 0x200, 0x400)]))
  {
    var img := ImageOf(FileOptional(0x4000_0000, 0x3000), [FileSection(0x1000, 0x200, 0x400)]);
    AlignedIsCovered(0x4000_0000, 0x3000);
    forall j | 0x1000 <= j < 0x1200
      ensures Canonical(Add64(0x4000_0000, j))
    {
      assert Add64(0x4000_0000, j) == 0x4000_0000 + j;
    }
    hide Covered;
  }

  lemma ThreeInside(size: nat)
    requires size >= 0x600
    ensures AllInside([FileSection(0x1000, 0x200, 0x400)], FileOptional(0x4000_0000, 0x3000), size)
  {
  }

  lemma ImageBytes(m: Memory, root: nat, blob: seq<Byte>)
    requires |blob| == 0x600
    requires var o, h := FileOptional(0x4000_0000, 0x3000), FileSection(0x1000, 0x200, 0x400);
      AllInside([h], o, |blob|) && ShowsSections(m, root, blob, o, [h])
    ensures forall k :: 0 <= k < 0x200 ==> ReadVa(m, root, PageTwo(k)) == blob[0x400 + k]
  {
    hide ReadVa;
    var o, h := FileOptional(0x4000_0000, 0x3000), FileSection(0x1000, 0x200, 0x400);
    forall k | 0 <= k < 0x200
      ensures ReadVa(m, root, PageTwo(k)) == blob[0x400 + k]
    {
      assert Add64(0x4000_0000, 0x1000 + k) == PageTwo(k);
      assert LastCover([h], 0, 0x1000 + k);
      assert RawByte(blob, o, h, 0x1000 + k) == blob[0x400 + k];
    }
  }

  // ---------------------------------------------------------------- containers

  /** A thin container with one section for the symbol "A": a page at the start of the window, with this content. */
  function FileFront(): Front {
    Front([0x4F, 0x70, 0x65, 0x6E, 0], 0, 0x500, 1, 0x5046, 1, 0, 0, 64, 1, 0)
  }

  function SymbolA(): seq<Byte> { ['A' as int] }

  function FileCommand(kind: nat, size: nat): (h: Command)
    requires kind in [0xC, 0xD, 0xE] && size <= 0x1000
    ensures h.Ok()
  {
    Command(SectionText(kind, SymbolA()) + seq(248, _ => 0), 1, 0, 0, kind, 368, size, 0x4000_0000, 0x1000)
  }

  function PefFile(kind: nat, content: seq<Byte>): (blob: seq<Byte>)
    requires kind in [0xC, 0xD, 0xE] && |content| <= 0x1000
    ensures |blob| == 368 + |content|
  {
    PackFront(FileFront()) + seq(7, _ => 0) + PackCommand(FileCommand(kind, |content|)) + [0, 0] + content
  }

  lemma PefFileHas(kind: nat, content: seq<Byte>)
    requires kind in [0xC, 0xD, 0xE] && |content| <= 0x1000
    ensures var blob, hs := PefFile(kind, content), [FileCommand(kind, |content|)];
      && LaidOut(blob, FileFront(), hs) && Accepted(FileFront()) && !Fat(FileFront())
      && FirstNamed(hs, 0, kind, SectionText(kind, SymbolA()))
      && Acceptable(hs[0], |blob|, 1, false) && blob[368..] == content
  {
    hide PackFront, PackCommand, SectionText;
    var blob, h := PefFile(kind, content), FileCommand(kind, |content|);
    TextIs(kind, SymbolA());
    FrontAccepted();
    hide Accepted, Fat;
    assert blob[..57] == PackFront(FileFront());
    assert blob[64..366] == PackCommand(h);
    assert HasCommand(blob, 0, h);
    assert h.name[..8] == SectionText(kind, SymbolA());
  }

  lemma FrontAccepted()
    ensures Accepted(FileFront()) && !Fat(FileFront())
  {
    Magics();
    assert FileFront().magic[..4] == MAGIC;
    assert MAGIC[0] != MAGIC_FAT[0];
  }

  /** On the small machine the code section of such a container loads, and shows the content. */
  lemma LoadedSection(mem: Memory, content: seq<Byte>)
    requires |mem| == 0x1100 && 1 <= |content| <= 0x1000
    ensures var (s, cr3) := SetUp(mem, 0x10_0000, 0x100_0000);
      var (s', r) := FindSymbol(s, cr3, PefFile(0xC, content), SymbolA(), 0xC);
      && r == Loaded(0x4000_0000)
      && forall k :: 0 <= k < |content| ==> ReadVa(s'.mem, cr3 / 0x1000, PageOne(k)) == content[k]
  {
    hide *;
    var (s, cr3) := SetUp(mem, 0x10_0000, 0x100_0000);
    var blob, h := PefFile(0xC, content), FileCommand(0xC, |content|);
    SmallMachine(mem);
    ReachingParts(s, cr3);
    PefFileHas(0xC, content);
    CommandFits(0xC, |content|);
    OneReach(s, cr3 / 0x1000, 0x4000_0000);
    NoZero();
    FindLaid(s, cr3, blob, FileFront(), [h], 0xC, SymbolA(), 0);
    SectionBytes(FindSymbol(s, cr3, blob, SymbolA(), 0xC).0.mem, cr3 / 0x1000, blob, content);
  }

  lemma CommandFits(kind: nat, size: nat)
    requires kind in [0xC, 0xD, 0xE] && size <= 0x1000
    ensures var h := FileCommand(kind, size);
      && ContentFits(Read(h)) && h.offsetSize == size && h.offset == 368
      && h.vmAddress == 0x4000_0000 && h.vmSize == 0x1000 && PageCount(h.vmSize) == 1
  {
    hide SectionText;
  }

  lemma NoZero()
    ensures 0 !in SymbolA() && |SymbolA()| == 1
  {
  }

  lemma SectionBytes(m: Memory, root: nat, blob: seq<Byte>, content: seq<Byte>)
    requires 1 <= |content| <= 0x1000 && |blob| == 368 + |content| && blob[368..] == content
    requires ShowsContent(m, root, blob, FileCommand(0xC, |content|))
    ensures forall k :: 0 <= k < |content| ==> ReadVa(m, root, PageOne(k)) == content[k]
  {
    CommandFits(0xC, |content|);
    hide ReadVa, FileCommand;
    forall k | 0 <= k < |content|
      ensures ReadVa(m, root, PageOne(k)) == content[k]
    {
      assert Add64(0x4000_0000, k) == PageOne(k);
      assert blob[368 + k] == blob[368..][k];
    }
  }

  /** A section of zeros without content is offered under its symbol, and refused in every state. */
  lemma RefusedSection(s: Hal, cr3: Word)
    ensures var blob, sect := PefFile(0xE, []), MakeName(0xE, SymbolA());
      && sect != [] && Offers(blob, sect, 0xE, Read(FileCommand(0xE, 0)))
      && FindSymbol(s, cr3, blob, SymbolA(), 0xE) == (s, Failed(InvalidData))
  {
    hide *;
    var blob, h := PefFile(0xE, []), FileCommand(0xE, 0);
    PefFileHas(0xE, []);
    NoZero();
    NameExact(0xE, SymbolA());
    TextIs(0xE, SymbolA());
    CommandFits(0xE, 0);
    OfferedExact(blob, FileFront(), [h], MakeName(0xE, SymbolA()), 0xE, SectionText(0xE, SymbolA()), 0, Read(h));
    FindSectionExact(blob, MakeName(0xE, SymbolA()), 0xE, Read(h));
    ReadParts(h);
    Refused(s, cr3, blob, SymbolA(), 0xE, Read(h));
  }

  lemma Refused(s: Hal, cr3: Word, blob: seq<Byte>, name: seq<Byte>, kind: int, h: Header)
    requires |blob| < 0x1_0000_0000_0000_0000 && MakeName(kind, name) != []
    requires FindSection(blob, MakeName(kind, name), kind) == Found(h) && h.offsetSize == 0
    ensures FindSymbol(s, cr3, blob, name, kind) == (s, Failed(InvalidData))
  {
    hide MakeName, FindSection, MapPages;
  }
}
