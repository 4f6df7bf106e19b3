/** Runs of the kernel: any sequence of maps, unmaps, walks and loads after start-up.  When the identity map the kernel
    relies on survives, and when every frame in use is still a table or behind a page. */
module KernelRuns {
  import opened Words
  import opened Bytes
  import opened PhysicalMemory
  import opened FrameAllocator
  import opened PageTables
  import opened PagingManager
  import opened PagingProofs
  import opened Boot
  import opened SectionLoader
  import opened LoaderProofs
  import opened Demand
  import opened Reachability
  import opened PefContainer
  import opened PefLoader
  import opened Pe32Loader
  import opened Pe32Proofs

  datatype Request =
    | MapRequest(va: Word, pa: Word, flags: Word)
    | UnmapRequest(va: Word)
    | WalkRequest(va: Word, alloc: bool)
    | LoadPef(blob: seq<Byte>, name: seq<Byte>, kind: int)
    | LoadPe32(loader: Loader)

  /** What the loads ask of their input: the content of a section, and the sections of an image, stay on the pages
      mapped for them, and no section of an image targets address 0 or an address the processor does not accept.  Frames
      lie below 2^52. */
  ghost predicate WellFormed(q: Request) {
    match q
    case MapRequest(_, pa, _) => pa < 0x10_0000_0000_0000
    case UnmapRequest(_) => true
    case WalkRequest(_, _) => true
    case LoadPef(blob, name, kind) =>
      && |blob| < 0x1_0000_0000_0000_0000
      && var found := FindSection(blob, MakeName(kind, name), kind);
         found.Found? ==> ContentFits(found.header)
    case LoadPe32(l) => |l.blob| < 0x1_0000_0000_0000_0000 && (Ready(l) ==> PlacedWell(ParseImage(l.blob)))
  }

  function Perform(s: Hal, cr3: Word, q: Request): Hal
    requires WellFormed(q)
  {
    match q
    case MapRequest(va, pa, flags) => MapPage(s, cr3, va, pa, flags).0
    case UnmapRequest(va) => UnmapPage(s, cr3, va).0
    case WalkRequest(va, alloc) => Walk(s, cr3, va, alloc).0
    case LoadPef(blob, name, kind) => FindSymbol(s, cr3, blob, name, kind).0
    case LoadPe32(l) => LoadImage(s, cr3, l).0
  }

  /** Frames a request puts behind pages: those of a load that succeeds. */
  function PagesTaken(s: Hal, cr3: Word, q: Request): nat
    requires WellFormed(q)
  {
    match q
    case LoadPef(blob, name, kind) =>
      if FindSymbol(s, cr3, blob, name, kind).1.Loaded? then
        var found := FindSection(blob, MakeName(kind, name), kind);
        if found.Found? then PageCount(found.header.vmSize) else 0
      else 0
    case LoadPe32(l) =>
      if Ready(l) && LoadImage(s, cr3, l).2.Loaded? then PageCount(ParseImage(l.blob).size) else 0
    case _ => 0
  }

  // ---------------------------------------------------------------- what a request changes

  /** The section a symbol lookup will load. */
  function Wanted(blob: seq<Byte>, name: seq<Byte>, kind: int): Found
    requires |blob| < 0x1_0000_0000_0000_0000
  {
    var sect := MakeName(kind, name);
    if sect == [] then NotFound
    else
      var found := FindSection(blob, sect, kind);
      if found.Found? && found.header.offsetSize > 0 then found else NotFound
  }

  /** The pages a request is about to change, read off the state before it. */
  ghost function Changed(s: Hal, cr3: Word, q: Request): set<Path>
    requires WellFormed(q)
  {
    var root := cr3 / 0x1000;
    match q
    case MapRequest(va, pa, _) =>
      if pa != 0 && pa % 0x1000 == 0 && s.free >= Missing(s.mem, root, va) then {PathOf(va)} else {}
    case UnmapRequest(va) =>
      if IsDir(s.mem, root, PlaceAt(va, 3)) && Resolve(s.mem, root, PathOf(va)).Leaf? then {PathOf(va)} else {}
    case WalkRequest(_, _) => {}
    case LoadPef(blob, name, kind) =>
      var found := Wanted(blob, name, kind);
      if found.Found? then
        PageSet(found.header.vmAddress, Reach(s, root, found.header.vmAddress, PageCount(found.header.vmSize)))
      else {}
    case LoadPe32(l) =>
      if Ready(l) then
        var img := ParseImage(l.blob);
        PageSet(img.base, Reach(s, root, img.base, PageCount(img.size)))
      else {}
  }

  /** What a changed page shows afterwards. */
  ghost predicate After(q: Request, held: set<nat>, v: View) {
    if q.MapRequest? then v == MappedView(q.pa, q.flags)
    else v == Fault || (v.Leaf? && v.frame in held && v == LoadedView(v.frame))
  }

  /** A request changed exactly these pages, and `held` are the frames it put behind them. */
  ghost predicate Effect(s: Hal, s': Hal, cr3: Word, q: Request, held: set<nat>)
    requires WellFormed(q)
  {
    var root, pages := cr3 / 0x1000, Changed(s, cr3, q);
    && Evolves(s, s', root, pages, held)
    && (forall p :: p in pages ==> Depth(p) == 4 && After(q, held, Resolve(s'.mem, root, p)))
    && (forall f :: f in held ==> exists p :: p in pages && Resolve(s'.mem, root, p) == LoadedView(f))
    && |held| == PagesTaken(s, cr3, q)
  }

  // ---------------------------------------------------------------- the pool

  /** The kernel's tables are sound, it reaches them, and they lie outside the image window. */
  ghost predicate Reaching(s: Hal, cr3: Word) {
    cr3 / 0x1000 != 0 && Sound(s, cr3 / 0x1000) && PoolKept(s, cr3 / 0x1000) && OffWindow(s)
  }

  /** An image is not about to take a page the pool is reached by. */
  ghost predicate LeavesPool(s: Hal, cr3: Word, q: Request)
    requires WellFormed(q)
  {
    q.LoadPe32? ==> forall p :: p in Changed(s, cr3, q) ==> !PoolPage(s, p)
  }

  /** The pool is reached before, between and after the steps of a request.  A map, an unmap or a walk changes no page
      before the last entry it writes; what it leaves is asked of the kernel that keeps running. */
  ghost predicate KeptThroughout(s: Hal, cr3: Word, q: Request)
    requires WellFormed(q)
  {
    match q
    case LoadPef(blob, name, kind) =>
      var found := Wanted(blob, name, kind);
      found.Found? ==> LoopKept(s, cr3, found.header.vmAddress, 0, PageCount(found.header.vmSize))
    case LoadPe32(l) => Ready(l) ==> ImageKept(s, cr3, l)
    case _ => true
  }

  /** That is so exactly when an image does not take such a page. */
  lemma KeptExact(s: Hal, cr3: Word, q: Request)
    requires Reaching(s, cr3) && WellFormed(q)
    ensures KeptThroughout(s, cr3, q) <==> LeavesPool(s, cr3, q)
  {
    match q {
      case LoadPef(blob, name, kind) => PefKept(s, cr3, blob, name, kind);
      case LoadPe32(l) => Pe32Kept(s, cr3, l);
      case _ =>
    }
  }

  lemma PefKept(s: Hal, cr3: Word, blob: seq<Byte>, name: seq<Byte>, kind: int)
    requires Reaching(s, cr3) && |blob| < 0x1_0000_0000_0000_0000
    ensures var found := Wanted(blob, name, kind);
      found.Found? ==> LoopKept(s, cr3, found.header.vmAddress, 0, PageCount(found.header.vmSize))
  {
    hide FindSection, MakeName, Offers, PageCount, Sound, PoolKept, Clear, Reach, Placed, LoopKept;
    if Wanted(blob, name, kind).Found? {
      var h := Wanted(blob, name, kind).header;
      var n := PageCount(h.vmSize);
      FindSectionExact(blob, MakeName(kind, name), kind, h);
      OfferedContent(blob, MakeName(kind, name), kind, h);
      OfferedClear(s, blob, MakeName(kind, name), kind, h);
      CountBound(h.vmSize);
      ClearLess(s, h.vmAddress, Reach(s, cr3 / 0x1000, h.vmAddress, n), n);
      LoopExact(s, cr3, h.vmAddress, n);
    }
  }

  lemma Pe32Kept(s: Hal, cr3: Word, l: Loader)
    requires Reaching(s, cr3) && WellFormed(LoadPe32(l))
    ensures KeptThroughout(s, cr3, LoadPe32(l)) <==> LeavesPool(s, cr3, LoadPe32(l))
  {
    hide Sound, PoolKept, Reach, PlacedWell, ParseImage, TableOk, PageCount, ImageKept, PoolPage, Page;
    if Ready(l) {
      ImageKeptExact(s, cr3, l);
    }
  }

  // ---------------------------------------------------------------- request by request

  lemma MapEffect(s: Hal, cr3: Word, va: Word, pa: Word, flags: Word)
    requires cr3 / 0x1000 != 0 && Sound(s, cr3 / 0x1000) && pa < 0x10_0000_0000_0000
    ensures var q := MapRequest(va, pa, flags);
      Effect(s, Perform(s, cr3, q), cr3, q, {})
  {
    hide MapPage, Evolves, Resolve, PathOf, Missing, Sound, Exhausted, MappedView;
    PathDepth(va);
    MapSpec(s, cr3, va, pa, flags);
    if pa != 0 && pa % 0x1000 == 0 {
      MapExact(s, cr3, va, pa, flags);
    }
  }

  lemma UnmapEffect(s: Hal, cr3: Word, va: Word)
    requires cr3 / 0x1000 != 0 && Sound(s, cr3 / 0x1000)
    ensures Effect(s, Perform(s, cr3, UnmapRequest(va)), cr3, UnmapRequest(va), {})
  {
    hide UnmapPage, Evolves, Resolve, PathOf, Sound, IsDir, SameShape, PlaceAt;
    PathDepth(va);
    UnmapSpec(s, cr3, va);
  }

  lemma WalkEffect(s: Hal, cr3: Word, va: Word, alloc: bool)
    requires cr3 / 0x1000 != 0 && Sound(s, cr3 / 0x1000)
    ensures Effect(s, Perform(s, cr3, WalkRequest(va, alloc)), cr3, WalkRequest(va, alloc), {})
  {
    hide Walk, Evolves, Resolve, Sound, Exhausted, SameShape, PlaceAt, IsDir;
    WalkSpec(s, cr3, va, alloc);
  }

  /** The pages and frames of a holding all of whose pages are backed, or none. */
  lemma HoldingEffect(s: Hal, s': Hal, root: nat, base: Word, i: nat, gs: seq<nat>, q: Request)
    requires Holding(s, s', root, base, i, gs) && (|gs| == i || gs == []) && !q.MapRequest?
    ensures var pages, held := PageSet(base, i), FrameSet(gs);
      && Evolves(s, s', root, pages, held)
      && (forall p :: p in pages ==> Depth(p) == 4 && After(q, held, Resolve(s'.mem, root, p)))
      && (forall f :: f in held ==> exists p :: p in pages && Resolve(s'.mem, root, p) == LoadedView(f))
      && |held| == |gs|
  {
    hide Evolves, Resolve, IsDir, Holding, Page, PathOf, After;
    HoldingDistinct(s, s', root, base, i, gs);
    FrameCount(gs);
    HoldingEvolves(s, s', root, base, i, gs);
    forall p | p in PageSet(base, i)
      ensures Depth(p) == 4 && After(q, FrameSet(gs), Resolve(s'.mem, root, p))
    {
      PageAfter(s, s', root, base, i, gs, q, p);
    }
    forall f | f in FrameSet(gs)
      ensures exists p :: p in PageSet(base, i) && Resolve(s'.mem, root, p) == LoadedView(f)
    {
      var p := FrameBehind(s, s', root, base, i, gs, f);
    }
  }

  lemma HoldingDistinct(s: Hal, s': Hal, root: nat, base: Word, i: nat, gs: seq<nat>)
    requires Holding(s, s', root, base, i, gs)
    ensures Distinct(gs)
  {
    hide Evolves, Resolve, IsDir;
  }

  lemma PageAfter(s: Hal, s': Hal, root: nat, base: Word, i: nat, gs: seq<nat>, q: Request, p: Path)
    requires Holding(s, s', root, base, i, gs) && !q.MapRequest? && p in PageSet(base, i)
    ensures Depth(p) == 4 && After(q, FrameSet(gs), Resolve(s'.mem, root, p))
  {
    hide Evolves, Resolve, IsDir, PathOf;
    var k :| 0 <= k < i && p == Page(base, k);
    PathDepth(PageAddr(base, k));
    if k < |gs| {
      assert Shown(s'.mem, root, base, k, gs[k]);
    }
  }

  lemma FrameBehind(s: Hal, s': Hal, root: nat, base: Word, i: nat, gs: seq<nat>, f: nat) returns (p: Path)
    requires Holding(s, s', root, base, i, gs) && f in FrameSet(gs)
    ensures p in PageSet(base, i) && Resolve(s'.mem, root, p) == LoadedView(f)
  {
    hide Evolves, Resolve, IsDir, Page;
    var k :| 0 <= k < |gs| && gs[k] == f;
    assert Shown(s'.mem, root, base, k, gs[k]);
    p := Page(base, k);
  }

  lemma PefEffect(s: Hal, cr3: Word, blob: seq<Byte>, name: seq<Byte>, kind: int) returns (held: set<nat>)
    requires Reaching(s, cr3) && WellFormed(LoadPef(blob, name, kind))
    ensures var q := LoadPef(blob, name, kind);
      Effect(s, Perform(s, cr3, q), cr3, q, held)
  {
    hide Sound, FindSection, MakeName, LoadSection, PageCount, Offers, ContentOf, Evolves, Resolve, Holding, Reach,
      Cost, ContentFits, PoolKept, CanLoad, Placed, LoopKept, Clear, PageSet, After;
    var root := cr3 / 0x1000;
    FindSymbolSpec(s, cr3, blob, name, kind);
    var sect := MakeName(kind, name);
    var r := FindSymbol(s, cr3, blob, name, kind).1;
    held := {};
    if r == Failed(InvalidData) {
      EvolvesRefl(s, root);
      PefRefused(s, cr3, blob, name, kind);
    } else {
      var h := FindSection(blob, sect, kind).header;
      PefAccepted(s, cr3, blob, name, kind);
      OfferedContent(blob, sect, kind, h);
      held := SectionEffect(s, cr3, h, ContentOf(blob, h), LoadPef(blob, name, kind));
    }
  }

  /** The pages and frames of a section load, successful or rolled back. */
  lemma SectionEffect(s: Hal, cr3: Word, h: Header, src: Source, q: Request) returns (held: set<nat>)
    requires CanLoad(s, cr3, h.vmAddress, PageCount(h.vmSize)) && Placed(h) && ContentFits(h)
    requires src.Source? && |src.bytes| == h.offsetSize && !q.MapRequest?
    ensures var root, n := cr3 / 0x1000, PageCount(h.vmSize);
      var pages := PageSet(h.vmAddress, Reach(s, root, h.vmAddress, n));
      var (s', r) := LoadSection(s, cr3, h, src);
      && Evolves(s, s', root, pages, held)
      && (forall p :: p in pages ==> Depth(p) == 4 && After(q, held, Resolve(s'.mem, root, p)))
      && (forall f :: f in held ==> exists p :: p in pages && Resolve(s'.mem, root, p) == LoadedView(f))
      && |held| == if r.Loaded? then n else 0
  {
    hide LoadSection, PageCount, Evolves, Resolve, Holding, Reach, Cost, ReadsAs, CoveredBytes, ContentFits, PoolKept,
      CanLoad, Placed, NoFault, PageSet, FrameSet, After;
    var root, n := cr3 / 0x1000, PageCount(h.vmSize);
    LoadSectionSpec(s, cr3, h, src);
    var (s', r) := LoadSection(s, cr3, h, src);
    if r.Loaded? {
      var gs :| |gs| == n && Holding(s, s', root, h.vmAddress, n, gs);
      ReachAll(s, root, h.vmAddress, n);
      HoldingEffect(s, s', root, h.vmAddress, n, gs, q);
      held := FrameSet(gs);
    } else {
      HoldingEffect(s, s', root, h.vmAddress, Reach(s, root, h.vmAddress, n), [], q);
      held := FrameSet([]);
    }
  }

  lemma ReachAll(s: Hal, root: nat, base: Word, n: nat)
    requires s.free >= Cost(s.mem, root, base, 0, n)
    ensures Reach(s, root, base, n) == n
  {
    hide Cost;
  }

  lemma PefRefused(s: Hal, cr3: Word, blob: seq<Byte>, name: seq<Byte>, kind: int)
    requires |blob| < 0x1_0000_0000_0000_0000 && FindSymbol(s, cr3, blob, name, kind).1 == Failed(InvalidData)
    ensures Wanted(blob, name, kind).NotFound?
  {
    hide FindSection, MakeName, Offers, MapPages, CopySafe;
    var sect := MakeName(kind, name);
    if sect != [] {
      var found := FindSection(blob, sect, kind);
      if found.Found? {
        FindSectionExact(blob, sect, kind, found.header);
        OfferedContent(blob, sect, kind, found.header);
      }
    }
  }

  lemma PefAccepted(s: Hal, cr3: Word, blob: seq<Byte>, name: seq<Byte>, kind: int)
    requires |blob| < 0x1_0000_0000_0000_0000 && FindSymbol(s, cr3, blob, name, kind).1 != Failed(InvalidData)
    ensures Wanted(blob, name, kind).Found? && Wanted(blob, name, kind) == FindSection(blob, MakeName(kind, name), kind)
  {
    hide FindSection, MakeName, Offers, MapPages, CopySafe;
    var sect := MakeName(kind, name);
    var found := FindSection(blob, sect, kind);
    if found.Found? {
      FindSectionExact(blob, sect, kind, found.header);
      OfferedContent(blob, sect, kind, found.header);
    }
  }

  lemma Pe32Effect(s: Hal, cr3: Word, l: Loader) returns (held: set<nat>)
    requires Reaching(s, cr3) && WellFormed(LoadPe32(l)) && LeavesPool(s, cr3, LoadPe32(l))
    ensures Effect(s, Perform(s, cr3, LoadPe32(l)), cr3, LoadPe32(l), held)
  {
    hide Sound, LoadImage, PageCount, Holding, ParseImage, TableOk, PlacedWell, ImageReads, Evolves, Resolve, Reach,
      Cost, AllFit, PageSet, FrameSet, After, Page, PoolKept, PoolPage, SectionsNoFault, LeavesPool, CanLoad;
    var root := cr3 / 0x1000;
    held := {};
    if Ready(l) {
      var img := ParseImage(l.blob);
      var n := PageCount(img.size);
      ImageCanLoad(s, cr3, l);
      LoadImageSpec(s, cr3, l);
      var (s', l', r) := LoadImage(s, cr3, l);
      if r.Loaded? {
        var gs :| |gs| == n && Holding(s, s', root, img.base, n, gs);
        ReachAll(s, root, img.base, n);
        HoldingEffect(s, s', root, img.base, n, gs, LoadPe32(l));
        held := FrameSet(gs);
      } else {
        HoldingEffect(s, s', root, img.base, Reach(s, root, img.base, n), [], LoadPe32(l));
        held := FrameSet([]);
      }
    } else {
      EvolvesRefl(s, root);
      NotReady(s, cr3, l);
    }
  }

  lemma ImageCanLoad(s: Hal, cr3: Word, l: Loader)
    requires Reaching(s, cr3) && WellFormed(LoadPe32(l)) && LeavesPool(s, cr3, LoadPe32(l)) && Ready(l)
    ensures CanLoad(s, cr3, ParseImage(l.blob).base, PageCount(ParseImage(l.blob).size))
  {
    hide Sound, PoolKept, Reach, PlacedWell, ParseImage, TableOk, PageCount, PoolPage, Page;
  }

  lemma NotReady(s: Hal, cr3: Word, l: Loader)
    requires |l.blob| < 0x1_0000_0000_0000_0000 && !Ready(l)
    ensures LoadImage(s, cr3, l).0 == s
  {
    hide Ready;
  }

  /** Every request that leaves the pool reachable changes exactly the pages read off the state before it. */
  lemma PerformEffect(s: Hal, cr3: Word, q: Request) returns (held: set<nat>)
    requires Reaching(s, cr3) && WellFormed(q) && KeptThroughout(s, cr3, q)
    ensures Effect(s, Perform(s, cr3, q), cr3, q, held)
  {
    KeptExact(s, cr3, q);
    hide Effect, Perform, WellFormed, Sound, PoolKept, OffWindow, LeavesPool, KeptThroughout;
    held := {};
    match q {
      case MapRequest(va, pa, flags) =>
        FrameBelow(q);
        MapEffect(s, cr3, va, pa, flags);
      case UnmapRequest(va) => UnmapEffect(s, cr3, va);
      case WalkRequest(va, alloc) => WalkEffect(s, cr3, va, alloc);
      case LoadPef(blob, name, kind) => held := PefEffect(s, cr3, blob, name, kind);
      case LoadPe32(l) => held := Pe32Effect(s, cr3, l);
    }
  }

  lemma FrameBelow(q: Request)
    requires WellFormed(q) && q.MapRequest?
    ensures q.pa < 0x10_0000_0000_0000
  {
  }

  // ---------------------------------------------------------------- the identity map

  /** None of the pages a request is about to change is one the kernel relies on, or it maps that page to itself. */
  ghost predicate Harmless(s: Hal, cr3: Word, limit: Word, q: Request)
    requires WellFormed(q)
  {
    forall p :: p in Changed(s, cr3, q) && Kept(p, limit) ==>
      q.MapRequest? && MappedView(q.pa, q.flags) == IdentityLeaf(p)
  }

  lemma EffectRuns(s: Hal, s': Hal, cr3: Word, limit: Word, q: Request, held: set<nat>)
    requires WellFormed(q) && Running(s, cr3, limit) && Effect(s, s', cr3, q, held)
    ensures Running(s', cr3, limit) <==> Harmless(s, cr3, limit, q)
  {
    hide Running, Evolves, Resolve, Changed, Kept, FirstPage, MappedView, WellFormed, PagesTaken;
    EvolvesRuns(s, s', cr3, limit, Changed(s, cr3, q), held);
  }

  /** A request keeps the kernel running, and the pool reachable at each of its steps, exactly when it is harmless. */
  lemma PerformRuns(s: Hal, cr3: Word, limit: Word, q: Request)
    requires Running(s, cr3, limit) && WellFormed(q)
    ensures KeptThroughout(s, cr3, q) && Running(Perform(s, cr3, q), cr3, limit) <==> Harmless(s, cr3, limit, q)
  {
    hide Running, Harmless, WellFormed, Perform, Effect, LeavesPool, KeptThroughout, Reaching;
    RunningReaches(s, cr3, limit);
    if Harmless(s, cr3, limit, q) { HarmlessLeaves(s, cr3, limit, q); }
    KeptExact(s, cr3, q);
    if KeptThroughout(s, cr3, q) {
      var held := PerformEffect(s, cr3, q);
      EffectRuns(s, Perform(s, cr3, q), cr3, limit, q, held);
    }
  }

  /** A harmless request leaves the pool alone: its pages are pages the kernel relies on. */
  lemma HarmlessLeaves(s: Hal, cr3: Word, limit: Word, q: Request)
    requires Running(s, cr3, limit) && WellFormed(q) && Harmless(s, cr3, limit, q)
    ensures LeavesPool(s, cr3, q)
  {
    hide WellFormed, Changed, Sound, IdentityKept, Kept, PoolPage;
    forall p | p in Changed(s, cr3, q) && q.LoadPe32?
      ensures !PoolPage(s, p)
    {
      if PoolPage(s, p) { PoolPageKept(s, cr3, limit, p); }
    }
  }

  lemma PoolPageKept(s: Hal, cr3: Word, limit: Word, p: Path)
    requires Running(s, cr3, limit) && PoolPage(s, p)
    ensures Kept(p, limit)
  {
    hide Used, TreeOk, LeafCarriesPolicy, IdentityKept, FirstPage;
    assert RegionOk(s);
    Euclid(s.end, 0x1000);
    Euclid(limit, 0x1000);
  }

  /** A running kernel reaches its pool. */
  lemma RunningReaches(s: Hal, cr3: Word, limit: Word)
    requires Running(s, cr3, limit)
    ensures Reaching(s, cr3)
  {
    hide Sound, Kept, PoolPage, Resolve, IdentityLeaf;
    forall p | Depth(p) == 4 && PoolPage(s, p)
      ensures Resolve(s.mem, cr3 / 0x1000, p) == IdentityLeaf(p)
    {
      PoolPageKept(s, cr3, limit, p);
    }
  }

  lemma RunningSound(s: Hal, cr3: Word, limit: Word)
    requires Running(s, cr3, limit)
    ensures cr3 / 0x1000 != 0 && Sound(s, cr3 / 0x1000)
  {
  }

  /** mm_map_page_in: a map that succeeds keeps the kernel running exactly when its page is none the kernel relies on or
      is mapped to itself again. */
  lemma MapRuns(s: Hal, cr3: Word, limit: Word, va: Word, pa: Word, flags: Word)
    requires Running(s, cr3, limit) && pa < 0x10_0000_0000_0000
    requires MapPage(s, cr3, va, pa, flags).1 == Success
    ensures Running(MapPage(s, cr3, va, pa, flags).0, cr3, limit)
      <==> !Kept(PathOf(va), limit) || MappedView(pa, flags) == IdentityLeaf(PathOf(va))
  {
    hide Running, MapPage, Kept, PathOf, FirstPage, Evolves, Resolve, MappedView, IdentityLeaf, Sound, Exhausted;
    PathDepth(va);
    RunningSound(s, cr3, limit);
    MapSpec(s, cr3, va, pa, flags);
    EvolvesRuns(s, MapPage(s, cr3, va, pa, flags).0, cr3, limit, {PathOf(va)}, {});
  }

  /** A load, or its roll-back, keeps the kernel running exactly when none of its pages is one the kernel relies on. */
  lemma HoldingRuns(s: Hal, s': Hal, cr3: Word, limit: Word, base: Word, i: nat, gs: seq<nat>)
    requires Running(s, cr3, limit) && Holding(s, s', cr3 / 0x1000, base, i, gs)
    ensures Running(s', cr3, limit) <==> forall k :: 0 <= k < i ==> !Kept(Page(base, k), limit)
  {
    HoldingEvolves(s, s', cr3 / 0x1000, base, i, gs);
    EvolvesRuns(s, s', cr3, limit, PageSet(base, i), FrameSet(gs));
    hide Running, Evolves, Kept, Resolve, IsDir;
    forall k | 0 <= k < i
      ensures Depth(Page(base, k)) == 4 && Page(base, k) in PageSet(base, i)
      ensures Resolve(s'.mem, cr3 / 0x1000, Page(base, k)) != IdentityLeaf(Page(base, k))
    {
      PathDepth(PageAddr(base, k));
      if k < |gs| {
        assert Shown(s'.mem, cr3 / 0x1000, base, k, gs[k]);
      }
    }
    hide Page, PathOf, IdentityLeaf;
  }

  // ---------------------------------------------------------------- the image window is harmless

  /** The virtual address lies in the image window, modulo the 48 translated bits. */
  predicate InWindow(va: Word) {
    0x4_0000 <= va / 0x1000 % 0x10_0000_0000 < 0x4_4000
  }

  /** Maps, unmaps and images stay in the window.  PEF sections always do. */
  predicate InsideWindow(q: Request)
    requires WellFormed(q)
  {
    match q
    case MapRequest(va, _, _) => InWindow(va)
    case UnmapRequest(va) => InWindow(va)
    case WalkRequest(_, _) => true
    case LoadPef(_, _, _) => true
    case LoadPe32(l) =>
      Ready(l) ==>
        var img := ParseImage(l.blob);
        0x4000_0000 <= img.base && img.base + img.size <= 0x4400_0000
  }

  lemma WindowNotKept(va: Word, limit: Word)
    requires InWindow(va)
    ensures !Kept(PathOf(va), limit)
  {
    PathOfPage(va);
    hide PathOf, FirstPage;
  }

  /** Pages of a range inside the window. */
  lemma RangeNotKept(base: Word, size: Word, k: nat, limit: Word)
    requires 0x4000_0000 <= base && base + size <= 0x4400_0000 && k < PageCount(size)
    ensures !Kept(Page(base, k), limit)
  {
    WindowPage(base, size, k);
    hide Page, FirstPage, PageCount;
  }

  lemma PagesNotKept(base: Word, size: Word, i: nat, limit: Word)
    requires 0x4000_0000 <= base && base + size <= 0x4400_0000 && i <= PageCount(size)
    ensures forall p :: p in PageSet(base, i) ==> !Kept(p, limit)
  {
    hide Kept, Page, PageCount;
    forall k | 0 <= k < i
      ensures !Kept(Page(base, k), limit)
    {
      RangeNotKept(base, size, k, limit);
    }
  }

  lemma WantedInWindow(blob: seq<Byte>, name: seq<Byte>, kind: int)
    requires |blob| < 0x1_0000_0000_0000_0000 && Wanted(blob, name, kind).Found?
    ensures var h := Wanted(blob, name, kind).header;
      0x4000_0000 <= h.vmAddress && h.vmAddress + h.vmSize <= 0x4400_0000
  {
    hide FindSection, MakeName, Offers;
    var h := Wanted(blob, name, kind).header;
    FindSectionExact(blob, MakeName(kind, name), kind, h);
    OfferedContent(blob, MakeName(kind, name), kind, h);
  }

  /** Requests that stay in the window are harmless, whatever the state. */
  lemma WindowHarmless(s: Hal, cr3: Word, limit: Word, q: Request)
    requires WellFormed(q) && InsideWindow(q)
    ensures Harmless(s, cr3, limit, q)
  {
    hide Kept, PathOf, FirstPage, Missing, Resolve, IsDir, Reach, PageCount, Wanted, ParseImage, PlacedWell, PlaceAt,
      FindSection, MakeName, ContentFits, InWindow, MappedView;
    match q {
      case MapRequest(va, pa, flags) => WindowNotKept(va, limit);
      case UnmapRequest(va) => WindowNotKept(va, limit);
      case WalkRequest(_, _) =>
      case LoadPef(blob, name, kind) =>
        if Wanted(blob, name, kind).Found? {
          var h := Wanted(blob, name, kind).header;
          WantedInWindow(blob, name, kind);
          PagesNotKept(h.vmAddress, h.vmSize, Reach(s, cr3 / 0x1000, h.vmAddress, PageCount(h.vmSize)), limit);
        }
      case LoadPe32(l) =>
        if Ready(l) {
          var img := ParseImage(l.blob);
          PagesNotKept(img.base, img.size, Reach(s, cr3 / 0x1000, img.base, PageCount(img.size)), limit);
        }
    }
  }

  // ---------------------------------------------------------------- who owns the frames

  /** A page the kernel does not rely on shows the frame. */
  ghost predicate Claims(m: Memory, root: nat, limit: Word, p: Path, f: nat) {
    Depth(p) == 4 && !Kept(p, limit) && Resolve(m, root, p).Leaf? && Resolve(m, root, p).frame == f
  }

  /** The frames in use that some such page shows. */
  ghost function Backing(s: Hal, root: nat, limit: Word): set<nat> {
    set f | f in Used(s) && exists p :: Claims(s.mem, root, limit, p, f)
  }

  /** No frame in use is lost: each is a table or behind a page. */
  ghost predicate Owned(s: Hal, root: nat, limit: Word) {
    forall f :: f in Used(s) && f !in Tables(s.mem, root) ==> exists p :: Claims(s.mem, root, limit, p, f)
  }

  lemma OwnedIs(s: Hal, root: nat, limit: Word)
    requires Sound(s, root)
    ensures Owned(s, root, limit) <==> Used(s) == Tables(s.mem, root) + Backing(s, root, limit)
  {
    TablesUsed(s, root);
    hide Sound, Used, Tables, Claims;
    if Owned(s, root, limit) {
      assert Used(s) == Tables(s.mem, root) + Backing(s, root, limit);
    } else {
      var f :| f in Used(s) && f !in Tables(s.mem, root) && !exists p :: Claims(s.mem, root, limit, p, f);
      assert f !in Tables(s.mem, root) + Backing(s, root, limit);
    }
  }

  /** A map shows this frame again. */
  ghost predicate Reshows(s: Hal, cr3: Word, limit: Word, q: Request, f: nat)
    requires WellFormed(q)
  {
    && q.MapRequest? && Changed(s, cr3, q) != {} && !Kept(PathOf(q.va), limit)
    && MappedView(q.pa, q.flags).Leaf? && MappedView(q.pa, q.flags).frame == f
  }

  /** The request is about to change every page that shows some frame in use which is no table, and does not map that
      frame again. */
  ghost predicate Strands(s: Hal, cr3: Word, limit: Word, q: Request)
    requires WellFormed(q)
  {
    exists f :: StrandsFrame(s, cr3, limit, q, f)
  }

  ghost predicate StrandsFrame(s: Hal, cr3: Word, limit: Word, q: Request, f: nat)
    requires WellFormed(q)
  {
    && f in Used(s) && f !in Tables(s.mem, cr3 / 0x1000)
    && (forall p :: Claims(s.mem, cr3 / 0x1000, limit, p, f) ==> p in Changed(s, cr3, q))
    && !Reshows(s, cr3, limit, q, f)
  }

  /** The frames a step leaves in use that are no table: those of before, and what it put behind pages. */
  lemma LooseFrames(s: Hal, s': Hal, root: nat, pages: set<Path>, held: set<nat>, f: nat)
    requires Evolves(s, s', root, pages, held)
    ensures f in Used(s') && f !in Tables(s'.mem, root) <==> (f in Used(s) && f !in Tables(s.mem, root)) || f in held
    ensures f in held ==> f !in Used(s)
  {
    EvolvesAccounts(s, s', root, pages, held);
    TablesUsed(s, root);
    hide Evolves, Used, Tables;
  }

  /** A frame that a request strands is lost afterwards. */
  lemma StrandedIsLost(s: Hal, s': Hal, cr3: Word, limit: Word, q: Request, held: set<nat>, f: nat)
    requires WellFormed(q) && Effect(s, s', cr3, q, held) && StrandsFrame(s, cr3, limit, q, f)
    ensures f in Used(s') && f !in Tables(s'.mem, cr3 / 0x1000)
    ensures forall p :: !Claims(s'.mem, cr3 / 0x1000, limit, p, f)
  {
    var root := cr3 / 0x1000;
    LooseFrames(s, s', root, Changed(s, cr3, q), held, f);
    EvolvesParts(s, s', root, Changed(s, cr3, q), held);
    hide Evolves, Used, Tables, Resolve, Kept, PagesTaken, WellFormed, MappedView, PathOf, Sound, DirsKept, Foreign;
    forall p
      ensures !Claims(s'.mem, root, limit, p, f)
    {
      if p in Changed(s, cr3, q) {
        ChangedMap(s, cr3, q, p);
      } else {
        ClaimKept(s.mem, s'.mem, root, limit, Changed(s, cr3, q), p, f);
      }
    }
  }

  lemma ClaimKept(m: Memory, m': Memory, root: nat, limit: Word, pages: set<Path>, p: Path, f: nat)
    requires SamePages(m, m', root, pages) && p !in pages
    ensures Claims(m', root, limit, p, f) <==> Claims(m, root, limit, p, f)
  {
    hide Resolve, Kept;
  }

  lemma ChangedMap(s: Hal, cr3: Word, q: Request, p: Path)
    requires WellFormed(q) && p in Changed(s, cr3, q)
    ensures q.MapRequest? ==> p == PathOf(q.va)
  {
    hide PathOf, Missing, Resolve, IsDir, FindSection, MakeName, ParseImage, PlacedWell, Ready, Wanted, Reach, PageSet;
  }

  /** A frame that a request does not strand is still owned afterwards. */
  lemma OthersStayOwned(s: Hal, s': Hal, cr3: Word, limit: Word, q: Request, held: set<nat>, f: nat)
    requires WellFormed(q) && Effect(s, s', cr3, q, held) && Harmless(s, cr3, limit, q)
    requires !StrandsFrame(s, cr3, limit, q, f)
    requires f in Used(s') && f !in Tables(s'.mem, cr3 / 0x1000)
    ensures exists p :: Claims(s'.mem, cr3 / 0x1000, limit, p, f)
  {
    var root := cr3 / 0x1000;
    LooseFrames(s, s', root, Changed(s, cr3, q), held, f);
    hide Effect, Harmless, Used, Tables, WellFormed, Changed, Reshows, Claims;
    if f in held {
      HeldOwned(s, s', cr3, limit, q, held, f);
    } else if Reshows(s, cr3, limit, q, f) {
      ReshownOwned(s, s', cr3, limit, q, held, f);
    } else {
      var p :| Claims(s.mem, root, limit, p, f) && p !in Changed(s, cr3, q);
      ElsewhereOwned(s, s', cr3, limit, q, held, p, f);
    }
  }

  lemma HeldOwned(s: Hal, s': Hal, cr3: Word, limit: Word, q: Request, held: set<nat>, f: nat)
    requires WellFormed(q) && Effect(s, s', cr3, q, held) && Harmless(s, cr3, limit, q) && f in held
    ensures exists p :: Claims(s'.mem, cr3 / 0x1000, limit, p, f)
  {
    hide *;
    var p := HeldShown(s, s', cr3, q, held, f);
    HarmlessAt(s, cr3, limit, q, p);
    ShownClaims(s'.mem, cr3 / 0x1000, limit, p, f);
  }

  lemma HeldShown(s: Hal, s': Hal, cr3: Word, q: Request, held: set<nat>, f: nat) returns (p: Path)
    requires WellFormed(q) && Effect(s, s', cr3, q, held) && f in held
    ensures p in Changed(s, cr3, q) && Depth(p) == 4 && Resolve(s'.mem, cr3 / 0x1000, p) == LoadedView(f)
    ensures !q.MapRequest?
  {
    NoHeldByMap(s, cr3, q, held, f);
    hide Evolves, Resolve, PagesTaken, WellFormed, Changed, After, LoadedView, Depth;
    p :| p in Changed(s, cr3, q) && Resolve(s'.mem, cr3 / 0x1000, p) == LoadedView(f);
  }

  lemma HarmlessAt(s: Hal, cr3: Word, limit: Word, q: Request, p: Path)
    requires WellFormed(q) && Harmless(s, cr3, limit, q) && p in Changed(s, cr3, q) && !q.MapRequest?
    ensures !Kept(p, limit)
  {
    hide Changed, Kept, WellFormed, MappedView, IdentityLeaf;
  }

  lemma ShownClaims(m: Memory, root: nat, limit: Word, p: Path, f: nat)
    requires Depth(p) == 4 && Resolve(m, root, p) == LoadedView(f) && !Kept(p, limit)
    ensures Claims(m, root, limit, p, f)
  {
    hide Resolve, Kept, Depth;
  }

  lemma ReshownOwned(s: Hal, s': Hal, cr3: Word, limit: Word, q: Request, held: set<nat>, f: nat)
    requires WellFormed(q) && Effect(s, s', cr3, q, held) && Reshows(s, cr3, limit, q, f)
    ensures exists p :: Claims(s'.mem, cr3 / 0x1000, limit, p, f)
  {
    OnlyPage(s, cr3, q);
    hide Evolves, Resolve, Kept, PagesTaken, WellFormed, MappedView, Changed, PathOf;
    assert Claims(s'.mem, cr3 / 0x1000, limit, PathOf(q.va), f);
  }

  lemma ElsewhereOwned(s: Hal, s': Hal, cr3: Word, limit: Word, q: Request, held: set<nat>, p: Path, f: nat)
    requires WellFormed(q) && Effect(s, s', cr3, q, held)
    requires Claims(s.mem, cr3 / 0x1000, limit, p, f) && p !in Changed(s, cr3, q)
    ensures Claims(s'.mem, cr3 / 0x1000, limit, p, f)
  {
    EvolvesParts(s, s', cr3 / 0x1000, Changed(s, cr3, q), held);
    hide Evolves, Resolve, Kept, PagesTaken, WellFormed, Changed, Sound, DirsKept, Foreign;
    ClaimKept(s.mem, s'.mem, cr3 / 0x1000, limit, Changed(s, cr3, q), p, f);
  }

  lemma OnlyPage(s: Hal, cr3: Word, q: Request)
    requires WellFormed(q) && q.MapRequest? && Changed(s, cr3, q) != {}
    ensures PathOf(q.va) in Changed(s, cr3, q)
  {
    hide PathOf, Missing;
  }

  lemma NoHeldByMap(s: Hal, cr3: Word, q: Request, held: set<nat>, f: nat)
    requires WellFormed(q) && |held| == PagesTaken(s, cr3, q) && f in held
    ensures !q.MapRequest?
  {
    hide FindSymbol, LoadImage, FindSection, MakeName, WellFormed;
    assert held != {};
  }

  lemma EffectOwned(s: Hal, s': Hal, cr3: Word, limit: Word, q: Request, held: set<nat>)
    requires WellFormed(q) && Effect(s, s', cr3, q, held) && Harmless(s, cr3, limit, q)
    ensures Owned(s', cr3 / 0x1000, limit) <==> !Strands(s, cr3, limit, q)
  {
    hide Effect, Harmless, WellFormed, Used, Tables, Claims, StrandsFrame;
    if Strands(s, cr3, limit, q) {
      var f :| StrandsFrame(s, cr3, limit, q, f);
      StrandedIsLost(s, s', cr3, limit, q, held, f);
    } else {
      forall f | f in Used(s') && f !in Tables(s'.mem, cr3 / 0x1000)
        ensures exists p :: Claims(s'.mem, cr3 / 0x1000, limit, p, f)
      {
        OthersStayOwned(s, s', cr3, limit, q, held, f);
      }
    }
  }

  /** After a harmless request no frame in use is lost exactly when it does not change all the pages of one: a load, map
      or unmap of pages none of which is the last to show a frame in use loses nothing. */
  lemma PerformOwned(s: Hal, cr3: Word, limit: Word, q: Request)
    requires Running(s, cr3, limit) && WellFormed(q) && Harmless(s, cr3, limit, q)
    ensures Owned(Perform(s, cr3, q), cr3 / 0x1000, limit) <==> !Strands(s, cr3, limit, q)
  {
    hide Running, Harmless, WellFormed, Perform, Effect, Owned, Strands, KeptThroughout, Reaching;
    RunningReaches(s, cr3, limit);
    PerformRuns(s, cr3, limit, q);
    var held := PerformEffect(s, cr3, q);
    EffectOwned(s, Perform(s, cr3, q), cr3, limit, q, held);
  }

  /** A section loaded twice: the frames of the first load stay in use, are no tables, and no page shows them but one
      that showed them before they were taken. */
  lemma ReloadStrands(s: Hal, cr3: Word, limit: Word, h: Header, src: Source, src': Source, f: nat)
    requires CanLoad(s, cr3, h.vmAddress, PageCount(h.vmSize)) && Placed(h) && ContentFits(h)
    requires src.Source? && |src.bytes| == h.offsetSize && src'.Source? && |src'.bytes| == h.offsetSize
    requires LoadSection(s, cr3, h, src).1.Loaded?
    requires LoadSection(LoadSection(s, cr3, h, src).0, cr3, h, src').1.Loaded?
    requires var s1 := LoadSection(s, cr3, h, src).0;
      f in Used(s1) && f !in Tables(s1.mem, cr3 / 0x1000) && f !in Used(s)
    ensures var root := cr3 / 0x1000;
      var s2 := LoadSection(LoadSection(s, cr3, h, src).0, cr3, h, src').0;
      && f in Used(s2) && f !in Tables(s2.mem, root)
      && forall p :: Claims(s2.mem, root, limit, p, f) ==> Claims(s.mem, root, limit, p, f)
  {
    hide Holding, LoadSection, ReadsAs, PageCount, CanLoad, Placed, Cost, Reach, ContentFits, CoveredBytes, Used,
      Tables, Claims, PoolKept, NoFault;
    var root, n := cr3 / 0x1000, PageCount(h.vmSize);
    var s1 := LoadSection(s, cr3, h, src).0;
    var s2 := LoadSection(s1, cr3, h, src').0;
    LoadSectionSpec(s, cr3, h, src);
    var gs :| |gs| == n && Holding(s, s1, root, h.vmAddress, n, gs);
    LoadAgain(s, s1, cr3, h.vmAddress, n, gs);
    LoadSectionSpec(s1, cr3, h, src');
    var gs' :| |gs'| == n && Holding(s1, s2, root, h.vmAddress, n, gs');
    HoldingEvolves(s1, s2, root, h.vmAddress, n, gs');
    LooseFrames(s1, s2, root, PageSet(h.vmAddress, n), FrameSet(gs'), f);
    forall p | Claims(s2.mem, root, limit, p, f)
      ensures Claims(s.mem, root, limit, p, f)
    {
      ClaimBefore(s, s1, s2, root, limit, h.vmAddress, n, gs, gs', p, f);
    }
  }

  lemma ClaimBefore(s: Hal, s1: Hal, s2: Hal, root: nat, limit: Word, base: Word, n: nat, gs: seq<nat>, gs': seq<nat>,
                    p: Path, f: nat)
    requires Holding(s, s1, root, base, n, gs) && Holding(s1, s2, root, base, n, gs') && |gs'| == n
    requires Claims(s2.mem, root, limit, p, f) && f in Used(s1)
    ensures Claims(s.mem, root, limit, p, f)
  {
    HoldingEvolves(s, s1, root, base, n, gs);
    HoldingEvolves(s1, s2, root, base, n, gs');
    EvolvesParts(s, s1, root, PageSet(base, n), FrameSet(gs));
    EvolvesParts(s1, s2, root, PageSet(base, n), FrameSet(gs'));
    LooseFrames(s1, s2, root, PageSet(base, n), FrameSet(gs'), f);
    if p in PageSet(base, n) {
      LoadedFrame(s1, s2, root, base, n, gs', p);
    } else {
      ClaimKept(s1.mem, s2.mem, root, limit, PageSet(base, n), p, f);
      ClaimKept(s.mem, s1.mem, root, limit, PageSet(base, n), p, f);
    }
    hide Evolves, Resolve, Kept, Page, IsDir, Sound, Used, Tables, Foreign, DirsKept, Holding, SamePages;
  }

  /** A page of a load shows one of its frames. */
  lemma LoadedFrame(s: Hal, s': Hal, root: nat, base: Word, n: nat, gs: seq<nat>, p: Path)
    requires Holding(s, s', root, base, n, gs) && |gs| == n && p in PageSet(base, n)
    ensures Resolve(s'.mem, root, p).Leaf? && Resolve(s'.mem, root, p).frame in FrameSet(gs)
  {
    hide Evolves, Resolve, Page, IsDir;
    var k :| 0 <= k < n && p == Page(base, k);
    assert Shown(s'.mem, root, base, k, gs[k]);
  }

  // ---------------------------------------------------------------- runs

  ghost predicate AllWellFormed(qs: seq<Request>) {
    forall i :: 0 <= i < |qs| ==> WellFormed(qs[i])
  }

  function Run(s: Hal, cr3: Word, qs: seq<Request>): Hal
    requires AllWellFormed(qs)
    decreases |qs|
  {
    if qs == [] then s else Run(Perform(s, cr3, qs[0]), cr3, qs[1..])
  }

  /** Frames behind the pages of the loads that succeeded in a run. */
  function RunTaken(s: Hal, cr3: Word, qs: seq<Request>): nat
    requires AllWellFormed(qs)
    decreases |qs|
  {
    if qs == [] then 0 else PagesTaken(s, cr3, qs[0]) + RunTaken(Perform(s, cr3, qs[0]), cr3, qs[1..])
  }

  /** Every request of the run is harmless when its turn comes. */
  ghost predicate AllHarmless(s: Hal, cr3: Word, limit: Word, qs: seq<Request>)
    requires AllWellFormed(qs)
    decreases |qs|
  {
    qs != [] ==> Harmless(s, cr3, limit, qs[0]) && AllHarmless(Perform(s, cr3, qs[0]), cr3, limit, qs[1..])
  }

  /** No request of the run strands a frame when its turn comes. */
  ghost predicate NoneStrands(s: Hal, cr3: Word, limit: Word, qs: seq<Request>)
    requires AllWellFormed(qs)
    decreases |qs|
  {
    qs != [] ==> !Strands(s, cr3, limit, qs[0]) && NoneStrands(Perform(s, cr3, qs[0]), cr3, limit, qs[1..])
  }

  /** The kernel is running before, between and after the requests, and reaches its pool during each of them. */
  ghost predicate AlwaysRunning(s: Hal, cr3: Word, limit: Word, qs: seq<Request>)
    requires AllWellFormed(qs)
    decreases |qs|
  {
    && Running(s, cr3, limit)
    && (qs != [] ==> KeptThroughout(s, cr3, qs[0]) && AlwaysRunning(Perform(s, cr3, qs[0]), cr3, limit, qs[1..]))
  }

  /** No frame in use is lost before, between or after the requests. */
  ghost predicate AlwaysOwned(s: Hal, cr3: Word, limit: Word, qs: seq<Request>)
    requires AllWellFormed(qs)
    decreases |qs|
  {
    Owned(s, cr3 / 0x1000, limit) && (qs != [] ==> AlwaysOwned(Perform(s, cr3, qs[0]), cr3, limit, qs[1..]))
  }

  /** Over every run the kernel keeps running throughout exactly when every request is harmless. */
  lemma {:induction false} RunRuns(s: Hal, cr3: Word, limit: Word, qs: seq<Request>)
    requires Running(s, cr3, limit) && AllWellFormed(qs)
    ensures AlwaysRunning(s, cr3, limit, qs) <==> AllHarmless(s, cr3, limit, qs)
    decreases |qs|
  {
    hide Running, WellFormed, Perform, Harmless, KeptThroughout;
    if qs != [] {
      PerformRuns(s, cr3, limit, qs[0]);
      if Harmless(s, cr3, limit, qs[0]) {
        RunRuns(Perform(s, cr3, qs[0]), cr3, limit, qs[1..]);
      } else if AlwaysRunning(s, cr3, limit, qs) {
        FirstRuns(Perform(s, cr3, qs[0]), cr3, limit, qs[1..]);
      }
    }
  }

  lemma FirstRuns(s: Hal, cr3: Word, limit: Word, qs: seq<Request>)
    requires AllWellFormed(qs) && AlwaysRunning(s, cr3, limit, qs)
    ensures Running(s, cr3, limit)
  {
    hide Running, WellFormed, Perform, KeptThroughout;
  }

  /** Over every harmless run no frame in use is ever lost exactly when no request strands one. */
  lemma {:induction false} RunOwned(s: Hal, cr3: Word, limit: Word, qs: seq<Request>)
    requires Running(s, cr3, limit) && AllWellFormed(qs) && AllHarmless(s, cr3, limit, qs)
    requires Owned(s, cr3 / 0x1000, limit)
    ensures AlwaysOwned(s, cr3, limit, qs) <==> NoneStrands(s, cr3, limit, qs)
    decreases |qs|
  {
    hide Running, WellFormed, Perform, Harmless, Strands, Owned, KeptThroughout;
    if qs != [] {
      PerformRuns(s, cr3, limit, qs[0]);
      PerformOwned(s, cr3, limit, qs[0]);
      if !Strands(s, cr3, limit, qs[0]) {
        RunOwned(Perform(s, cr3, qs[0]), cr3, limit, qs[1..]);
      } else if AlwaysOwned(s, cr3, limit, qs) {
        FirstOwned(Perform(s, cr3, qs[0]), cr3, limit, qs[1..]);
      }
    }
  }

  lemma FirstOwned(s: Hal, cr3: Word, limit: Word, qs: seq<Request>)
    requires AllWellFormed(qs) && AlwaysOwned(s, cr3, limit, qs)
    ensures Owned(s, cr3 / 0x1000, limit)
  {
    hide Owned, WellFormed, Perform;
  }

  lemma {:induction false} LastOwned(s: Hal, cr3: Word, limit: Word, qs: seq<Request>)
    requires AllWellFormed(qs) && AlwaysOwned(s, cr3, limit, qs)
    ensures Owned(Run(s, cr3, qs), cr3 / 0x1000, limit)
    decreases |qs|
  {
    hide Owned, WellFormed, Perform;
    if qs != [] {
      LastOwned(Perform(s, cr3, qs[0]), cr3, limit, qs[1..]);
    }
  }

  /** Runs that stay in the image window are harmless. */
  lemma {:induction false} WindowRun(s: Hal, cr3: Word, limit: Word, qs: seq<Request>)
    requires AllWellFormed(qs) && forall i :: 0 <= i < |qs| ==> InsideWindow(qs[i])
    ensures AllHarmless(s, cr3, limit, qs)
    decreases |qs|
  {
    hide WellFormed, Perform, Harmless, InsideWindow;
    if qs != [] {
      WindowHarmless(s, cr3, limit, qs[0]);
      WindowRun(Perform(s, cr3, qs[0]), cr3, limit, qs[1..]);
    }
  }

  // ---------------------------------------------------------------- counting frames

  /** The used counter grew by the tables newly linked and by `taken`. */
  ghost predicate Grew(s: Hal, s': Hal, root: nat, taken: nat) {
    s'.used + |Tables(s.mem, root)| == s.used + |Tables(s'.mem, root)| + taken
  }

  lemma EffectGrew(s: Hal, s': Hal, cr3: Word, q: Request, held: set<nat>)
    requires WellFormed(q) && Effect(s, s', cr3, q, held)
    ensures Grew(s, s', cr3 / 0x1000, PagesTaken(s, cr3, q))
  {
    var root := cr3 / 0x1000;
    EvolvesAccounts(s, s', root, Changed(s, cr3, q), held);
    hide Evolves, Tables, Used, Changed, WellFormed, PagesTaken, Resolve;
    SetCounts(Used(s), Used(s'), Tables(s.mem, root), Tables(s'.mem, root), held);
  }

  /** Over every harmless run the kernel ends running, and the used count has grown by the tables newly linked plus the
      pages of the loads that succeeded. */
  lemma {:induction false} RunSpec(s: Hal, cr3: Word, limit: Word, qs: seq<Request>)
    requires Running(s, cr3, limit) && AllWellFormed(qs) && AllHarmless(s, cr3, limit, qs)
    ensures Running(Run(s, cr3, qs), cr3, limit)
    ensures Grew(s, Run(s, cr3, qs), cr3 / 0x1000, RunTaken(s, cr3, qs))
    decreases |qs|
  {
    hide Running, WellFormed, Perform, Harmless, PagesTaken, Tables, Effect, KeptThroughout, Reaching;
    if qs != [] {
      var s1 := Perform(s, cr3, qs[0]);
      PerformRuns(s, cr3, limit, qs[0]);
      RunningReaches(s, cr3, limit);
      var held := PerformEffect(s, cr3, qs[0]);
      EffectGrew(s, s1, cr3, qs[0], held);
      RunSpec(s1, cr3, limit, qs[1..]);
    }
  }

  /** From start-up through any harmless run: every address below the limit outside the window is accepted by the
      processor and translates to itself, so does every address inside a table or any other frame of the pool, none of
      them in the window; the used count is the tables plus the pages of the loads that succeeded; and when no request
      strands a frame, the frames in use are exactly the tables and the frames behind pages. */
  lemma BootRunSpec(mem: Memory, base: Word, size: Word, qs: seq<Request>, a: Word)
    requires base + size <= 0x8000_0000_0000 && base + size <= |mem| * 0x1000 <= 0x10_0000_0000_0000
    requires SetUp(mem, base, size).1 != 0 && AllWellFormed(qs)
    requires AllHarmless(SetUp(mem, base, size).0, SetUp(mem, base, size).1, CarveUp(base, size).mapLimit, qs)
    ensures var limit := CarveUp(base, size).mapLimit;
      var (s, cr3) := SetUp(mem, base, size);
      var s' := Run(s, cr3, qs);
      var root := cr3 / 0x1000;
      && Sound(s', root)
      && (a < limit && !(WINDOW_START <= a < WINDOW_END) ==> Canonical(a) && GetPageAddr(s'.mem, cr3, a) == a)
      && (s'.base <= a < s'.end ==>
            !(WINDOW_START <= a < WINDOW_END) && Canonical(a) && GetPageAddr(s'.mem, cr3, a) == a)
      && (a / 0x1000 in Tables(s'.mem, root) ==> s'.base <= a < s'.end)
      && s'.used == |Tables(s'.mem, root)| + RunTaken(s, cr3, qs)
      && (NoneStrands(s, cr3, limit, qs) ==> Used(s') == Tables(s'.mem, root) + Backing(s', root, limit))
  {
    var limit := CarveUp(base, size).mapLimit;
    var (s, cr3) := SetUp(mem, base, size);
    var s' := Run(s, cr3, qs);
    CarveSpec(base, size);
    SetUpSpec(mem, base, size);
    hide SetUp, CarveUp, Tables, Used, Running, Run, RunTaken, AllWellFormed, Sound, GetPageAddr, AllHarmless,
      NoneStrands, Owned, Backing;
    Aligned(limit);
    RunSpec(s, cr3, limit, qs);
    BootUsed(s, cr3, limit);
    RunningSound(s', cr3, limit);
    if a < limit && !(WINDOW_START <= a < WINDOW_END) {
      IdentityAddresses(s', cr3, limit, a);
    }
    if s'.base <= a < s'.end {
      PoolReachable(s', cr3, limit, a);
    }
    if a / 0x1000 in Tables(s'.mem, cr3 / 0x1000) {
      TablesInPool(s', cr3, limit, a / 0x1000);
      Euclid(a, 0x1000);
    }
    if NoneStrands(s, cr3, limit, qs) {
      BootOwned(s, cr3, limit);
      RunOwned(s, cr3, limit, qs);
      LastOwned(s, cr3, limit, qs);
      OwnedIs(s', cr3 / 0x1000, limit);
    }
  }

  lemma Aligned(limit: nat)
    requires limit % 0x4000_0000 == 0
    ensures limit % 0x1000 == 0
  {
  }

  lemma BootUsed(s: Hal, cr3: Word, limit: Word)
    requires Running(s, cr3, limit) && Used(s) == Tables(s.mem, cr3 / 0x1000)
    ensures s.used == |Tables(s.mem, cr3 / 0x1000)|
  {
    UsedCount(s);
    hide PmmOk, Used, Tables, TreeOk;
  }

  lemma BootOwned(s: Hal, cr3: Word, limit: Word)
    requires Used(s) == Tables(s.mem, cr3 / 0x1000)
    ensures Owned(s, cr3 / 0x1000, limit)
  {
    hide Used, Tables, Claims;
  }
}
