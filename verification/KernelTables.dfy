/** The boot-time identity map: 2 MiB leaves for every GiB below a limit. */
module KernelTables {
  import opened Words
  import opened PhysicalMemory
  import opened FrameAllocator
  import opened PageTables
  import opened TableSteps
  import opened Entries
  import opened PagingProofs
  import opened PagingManager
  import opened Translation

  /** The page directory that maps the GiB at `base` to itself. */
  function InitEntry(base: Word, i: Index): Word {
    Or64(Add64(base, i * 0x20_0000), 0x83)
  }

  function InitFrame(base: Word): Frame {
    seq(512, i requires 0 <= i < 512 => InitEntry(base, i))
  }

  /** Makes sure the PML4 has a table for the 512 GiB around `base`.  False when out of frames. */
  function EnsurePdpt(s: Hal, pml4: nat, base: Word): (Hal, bool) {
    var idx := base / 0x80_0000_0000 % 0x200;
    if Present(Load(s.mem, pml4, idx)) then (s, true)
    else
      var (s1, frame) := Alloc(s);
      if frame == 0 then (s1, false)
      else (s1.(mem := Store(s1.mem, pml4, idx, Or64(frame, 3))), true)
  }

  /** Links a filled page directory for the GiB at `base`.  False when out of frames. */
  function AddDirectory(s: Hal, pdpt: nat, base: Word): (Hal, bool) {
    var (s1, frame) := Alloc(s);
    if frame == 0 then (s1, false)
    else
      var linked := Store(s1.mem, pdpt, base / 0x4000_0000 % 0x200, Or64(frame, 3));
      (s1.(mem := StoreFrame(linked, frame / 0x1000, InitFrame(base))), true)
  }

  /** One round of the loop of mm_init_kernel_tables. */
  function MapGiB(s: Hal, pml4: nat, base: Word): (Hal, bool) {
    var (s1, ok) := EnsurePdpt(s, pml4, base);
    if !ok then (s1, false)
    else AddDirectory(s1, Load(s1.mem, pml4, base / 0x80_0000_0000 % 0x200) / 0x1000, base)
  }

  /** The loop from `base` on.  A limit in the topmost GiB of the 64-bit range would make the source loop forever. */
  function MapFrom(s: Hal, pml4: nat, base: Word, limit: Word): (Hal, bool)
    requires limit <= 0xFFFF_FFFF_C000_0000
    decreases limit - base
  {
    if base >= limit then (s, true)
    else
      var (s1, ok) := MapGiB(s, pml4, base);
      if !ok then (s1, false) else MapFrom(s1, pml4, base + 0x4000_0000, limit)
  }

  /** mm_init_kernel_tables: the PML4's address, 0 on failure. */
  function InitKernelTables(s: Hal, limit: Word): (Hal, Word)
    requires limit <= 0xFFFF_FFFF_C000_0000
  {
    var (s1, pml4) := Alloc(s);
    if pml4 == 0 then (s1, 0)
    else
      var (s2, ok) := MapFrom(s1, pml4 / 0x1000, 0, limit);
      (s2, if ok then pml4 else 0)
  }

  // ---------------------------------------------------------------- what has been built

  /** The tables map the pages below `b` to themselves and nothing else; the PML4 has tables for the places that
      start below `d`. */
  predicate BuiltAt(v: View, n: Path, b: nat, d: nat) {
    if Depth(n) == 1 then
      if FirstPage(n) < d then v.Dir? && v.wr && !v.user && !v.nx else v.Fault?
    else if Depth(n) == 2 then
      if FirstPage(n) < b then v.Dir? && v.wr && !v.user && !v.nx else v.Fault?
    else
      v == if FirstPage(n) < b then IdentityLeaf(n) else Fault
  }

  ghost predicate Built(m: Memory, root: nat, b: nat, d: nat) {
    forall n :: 1 <= Depth(n) <= 4 ==> BuiltAt(Resolve(m, root, n), n, b, d)
  }

  /** Frames the tables for the first g GiB take. */
  function Needed(g: nat): nat {
    1 + (g + 0x1FF) / 0x200 + g
  }

  /** Allocator and table tree while the identity map is under construction, begun in state s0. */
  ghost predicate Grown(s0: Hal, s: Hal, root: nat, count: nat) {
    && PmmOk(s0) && PmmOk(s)
    && s.base == s0.base && s.end == s0.end && |s.mem| == |s0.mem|
    && TreeOk(s.mem, root, Used(s))
    && Tables(s.mem, root) !! Used(s0)
    && Used(s) == Used(s0) + Tables(s.mem, root)
    && |Tables(s.mem, root)| == count
  }

  /** The state while the identity map is under construction, begun in state s0. */
  ghost predicate Building(s0: Hal, s: Hal, root: nat, b: nat, d: nat, count: nat) {
    Grown(s0, s, root, count) && Built(s.mem, root, b, d)
  }

  /** What is built so far carries its policy in the leaves. */
  lemma BuiltPolicy(m: Memory, root: nat, b: nat, d: nat)
    requires Built(m, root, b, d)
    ensures LeafCarriesPolicy(m, root)
  {
    hide Resolve;
    forall p | Depth(p) == 4
      ensures PolicyOk(Resolve(m, root, p))
    {
      assert BuiltAt(Resolve(m, root, p), p, b, d);
    }
  }

  lemma BuildingFree(s0: Hal, s: Hal, root: nat, b: nat, d: nat, count: nat)
    requires Building(s0, s, root, b, d, count)
    ensures s.free + count == s0.free
  {
    UsedCount(s0);
    UsedCount(s);
    hide PmmOk, Used, Tables, TreeOk, Built;
    assert |Used(s)| == |Used(s0)| + |Tables(s.mem, root)|;
  }

  /** The first step: an empty PML4. */
  lemma BuildRoot(s: Hal)
    requires PmmOk(s) && Alloc(s).1 != 0
    ensures var (s1, pml4) := Alloc(s);
      Building(s, s1, pml4 / 0x1000, 0, 0, 1)
  {
    AllocSpec(s);
    var (s1, pml4) := Alloc(s);
    var root := pml4 / 0x1000;
    UsedBounds(s);
    hide PmmOk, Used, Alloc;
    EmptyResolves(s1.mem, root);
    assert Tables(s1.mem, root) == {root} by {
      assert IsDir(s1.mem, root, Top) && TableAt(s1.mem, root, Top) == root;
      assert IsTable(s1.mem, root, root);
    }
    EmptyTree(s1.mem, root, Used(s1));
    assert Built(s1.mem, root, 0, 0);
  }

  lemma EmptyResolves(m: Memory, root: nat)
    requires root < |m| && m[root] == Zeros()
    ensures forall n :: n != Top ==> Resolve(m, root, n) == Fault
  {
    forall n | n != Top
      ensures Resolve(m, root, n) == Fault
    {
      EmptyResolvesAt(m, root, n);
    }
  }

  lemma {:induction false} EmptyResolvesAt(m: Memory, root: nat, n: Path)
    requires root < |m| && m[root] == Zeros() && n != Top
    ensures Resolve(m, root, n) == Fault
  {
    if n.parent == Top {
      assert Load(m, root, n.idx) == 0;
    } else {
      EmptyResolvesAt(m, root, n.parent);
    }
  }

  lemma EmptyTree(m: Memory, root: nat, used: set<nat>)
    requires root < |m| && m[root] == Zeros() && root in used
    requires forall n :: n != Top ==> Resolve(m, root, n) == Fault
    ensures TreeOk(m, root, used) && LeafCarriesPolicy(m, root)
  {
    assert forall n :: IsDir(m, root, n) ==> n == Top;
  }

  // ---------------------------------------------------------------- places and page numbers

  lemma {:induction false} UnderFirstPage(p: Path, c: Path)
    requires Under(p, c)
    ensures FirstPage(p) >= FirstPage(c)
  {
    if p != c {
      UnderFirstPage(p.parent, c);
    }
  }

  lemma {:induction false} FaultUnder(m: Memory, root: nat, p: Path, c: Path)
    requires Under(p, c) && Resolve(m, root, c) == Fault
    ensures Resolve(m, root, p) == Fault
  {
    if p != c {
      FaultUnder(m, root, p.parent, c);
    }
  }

  /** The place of depth 2 above a place. */
  function AtDepth2(p: Path): (q: Path)
    requires 2 <= Depth(p) <= 4
    ensures Depth(q) == 2 && Under(p, q)
    ensures FirstPage(q) <= FirstPage(p)
    ensures FirstPage(p) <= FirstPage(q) + (if Depth(p) == 2 then 0 else if Depth(p) == 3 then 0x3_FE00 else 0x3_FFFF)
  {
    if Depth(p) == 2 then p else AtDepth2(p.parent)
  }

  /** The place of depth 2 that starts at page b is the only one whose pages lie in the GiB at b. */
  lemma InGiB(p: Path, c: Path, g: nat)
    requires 2 <= Depth(p) <= 4 && Depth(c) == 2 && FirstPage(c) == g * 0x4_0000
    requires g * 0x4_0000 <= FirstPage(p) < (g + 1) * 0x4_0000
    ensures Under(p, c)
  {
    hide FirstPage, Under, Number;
    var q := AtDepth2(p);
    FirstPageIsNumber(q);
    FirstPageIsNumber(c);
    SameGiB(FirstPage(p), Number(q), g);
    FirstPageInjective(q, c);
  }

  lemma SameGiB(page: nat, n: nat, g: nat)
    requires g * 0x4_0000 <= page < (g + 1) * 0x4_0000 && n * 0x4_0000 <= page < (n + 1) * 0x4_0000
    ensures n == g
  {
  }

  /** The places of the GiB number g. */
  lemma GiBPlaces(g: nat)
    requires g < 0x4_0000
    ensures var base := g * 0x4000_0000;
      var n := In(Top, base / 0x80_0000_0000 % 0x200);
      && base / 0x80_0000_0000 % 0x200 == g / 0x200
      && base / 0x4000_0000 % 0x200 == g % 0x200
      && FirstPage(n) == g / 0x200 * 0x800_0000
      && FirstPage(In(n, base / 0x4000_0000 % 0x200)) == g * 0x4_0000
  {
    var base := g * 0x4000_0000;
    DivIs(base, 0x4000_0000, g, 0);
    DivDiv(base, 0x4000_0000, 0x200);
    Euclid(g, 0x200);
    var n := In(Top, g / 0x200);
    assert Depth(n) == 1 && FirstPage(n) == Scale(1, g / 0x200);
    assert FirstPage(In(n, g % 0x200)) == FirstPage(n) + Scale(2, g % 0x200);
  }

  // ---------------------------------------------------------------- one round

  /** The tables with the PML4 entry for GiB g in place. */
  lemma EnsurePresent(s0: Hal, s: Hal, root: nat, g: nat, count: nat)
    requires g < 0x4_0000 && Building(s0, s, root, g * 0x4_0000, g * 0x4_0000, count)
    requires Present(Load(s.mem, root, g / 0x200))
    ensures g % 0x200 != 0
    ensures Building(s0, s, root, g * 0x4_0000, g * 0x4_0000 + 1, count)
  {
    hide PmmOk, Used, Tables;
    var b := g * 0x4_0000;
    var n := In(Top, g / 0x200);
    GiBPlaces(g);
    assert BuiltAt(Resolve(s.mem, root, n), n, b, b);
    assert EntryOk(1, Load(s.mem, root, g / 0x200)) by {
      assert IsDir(s.mem, root, Top) && TableAt(s.mem, root, Top) == root;
    }
    assert Resolve(s.mem, root, n).Dir?;
    hide Resolve;
    forall p | 1 <= Depth(p) <= 4
      ensures BuiltAt(Resolve(s.mem, root, p), p, b, b + 1)
    {
      assert BuiltAt(Resolve(s.mem, root, p), p, b, b);
      if Depth(p) == 1 && FirstPage(p) == b {
        FirstPageIsNumber(p);
        FirstPageIsNumber(n);
      }
    }
  }

  /** The state after linking a fresh frame with the given content below the table at n. */
  function Link3(s: Hal, root: nat, n: Path, i: Index, content: Frame): Hal
    requires IsDir(s.mem, root, n)
  {
    var (s1, frame) := Alloc(s);
    s1.(mem := Store(StoreFrame(s1.mem, frame / 0x1000, content), TableAt(s.mem, root, n), i, Or64(frame, 3)))
  }

  ghost predicate CanLink3(s0: Hal, s: Hal, root: nat, n: Path, i: Index, content: Frame, count: nat) {
    && Grown(s0, s, root, count)
    && IsDir(s.mem, root, n) && Depth(n) <= 1
    && Resolve(s.mem, root, In(n, i)) == Fault
    && OnlyLeaves(Depth(n) + 2, content)
    && Alloc(s).1 != 0
  }

  lemma TableInUse(m: Memory, root: nat, used: set<nat>, n: Path)
    requires TreeOk(m, root, used) && IsDir(m, root, n)
    ensures TableAt(m, root, n) in used && TableAt(m, root, n) < |m|
  {
    hide Resolve;
  }

  lemma Link3Entry(s: Hal)
    requires PmmOk(s) && Alloc(s).1 != 0
    ensures var f, e := Alloc(s).1 / 0x1000, Or64(Alloc(s).1, 3);
      && Present(e) && !LargePage(e) && FrameOf(e) == f == e / 0x1000 && e < 0x10_0000_0000_0000 && Wr(e) && !User(e)
      && f !in Used(s) && f < |s.mem|
  {
    hide PmmOk, Used, Alloc, Or64, Present, LargePage, FrameOf, Wr, User;
    AllocSpec(s);
    UsedBounds(s);
    TableEntry(Alloc(s).1, 3);
  }

  lemma Link3Is(s0: Hal, s: Hal, root: nat, n: Path, i: Index, content: Frame, count: nat)
    requires CanLink3(s0, s, root, n, i, content, count)
    ensures var f, e := Alloc(s).1 / 0x1000, Or64(Alloc(s).1, 3);
      var s' := Link3(s, root, n, i, content);
      && CanLink(s.mem, root, Used(s), n, i, f, content, e)
      && Wr(e) && !User(e) && e / 0x1000 == f
      && s'.mem == Linked(s.mem, root, n, i, f, content, e)
      && PmmOk(s') && Used(s') == Used(s) + {f} && s'.base == s.base && s'.end == s.end && |s'.mem| == |s.mem|
      && f !in Used(s) && Grown(s0, s, root, count)
  {
    hide PmmOk, Used, TreeOk, Resolve, Alloc, Or64, Present, LargePage, FrameOf, Wr, User, Tables, OnlyLeaves;
    Link3Entry(s);
    TableInUse(s.mem, root, Used(s), n);
    AllocFillStore(s, TableAt(s.mem, root, n), i, content, Or64(Alloc(s).1, 3));
  }

  /** Linking takes one frame and makes it a table. */
  lemma Link3Grows(s0: Hal, s: Hal, root: nat, n: Path, i: Index, content: Frame, count: nat)
    requires CanLink3(s0, s, root, n, i, content, count)
    ensures Grown(s0, Link3(s, root, n, i, content), root, count + 1)
  {
    hide PmmOk, Used, TreeOk, Resolve, Alloc, Or64, Present, LargePage, FrameOf, Wr, User, Tables, CanLink, Linked,
      Link3, OnlyLeaves, IsDir;
    var f, e := Alloc(s).1 / 0x1000, Or64(Alloc(s).1, 3);
    Link3Is(s0, s, root, n, i, content, count);
    hide CanLink3;
    var s' := Link3(s, root, n, i, content);
    LinkKeepsTree(s.mem, root, Used(s), n, i, f, content, e);
    assert f !in Tables(s.mem, root);
    assert Used(s') == Used(s0) + Tables(s'.mem, root);
  }

  /** The walk after linking: a writable kernel table, its entries below, all else as before. */
  lemma Link3Resolves(s0: Hal, s: Hal, root: nat, n: Path, i: Index, content: Frame, count: nat)
    requires CanLink3(s0, s, root, n, i, content, count)
    requires var v := Resolve(s.mem, root, n); v.Dir? && v.wr && !v.nx
    ensures var s' := Link3(s, root, n, i, content);
      var c := In(n, i);
      && (forall p :: Depth(p) <= 4 && !Under(p, c) ==> Resolve(s'.mem, root, p) == Resolve(s.mem, root, p))
      && Resolve(s'.mem, root, c) == Dir(Alloc(s).1 / 0x1000, true, false, false)
      && (forall j: Index :: Resolve(s'.mem, root, In(c, j)) == EntryView(Depth(c) + 1, content[j], true, false, false))
      && Load(s'.mem, TableAt(s.mem, root, n), i) / 0x1000 == Alloc(s).1 / 0x1000
  {
    hide PmmOk, Used, TreeOk, Resolve, Alloc, Or64, Present, LargePage, FrameOf, Wr, User, Tables, CanLink, Linked,
      Link3, OnlyLeaves, IsDir, Grown, EntryView;
    var f, e := Alloc(s).1 / 0x1000, Or64(Alloc(s).1, 3);
    Link3Is(s0, s, root, n, i, content, count);
    hide CanLink3;
    LinkResolves(s.mem, root, Used(s), n, i, f, content, e);
    LinkLoads(s.mem, root, Used(s), n, i, f, content, e);
  }

  /** A fresh, empty table for the 512 GiB that begin with GiB g. */
  lemma EnsureAbsent(s0: Hal, s: Hal, root: nat, g: nat, count: nat)
    requires g < 0x4_0000 && Building(s0, s, root, g * 0x4_0000, g * 0x4_0000, count)
    requires !Present(Load(s.mem, root, g / 0x200)) && Alloc(s).1 != 0
    ensures g % 0x200 == 0
    ensures IsDir(s.mem, root, Top)
    ensures var s' := Link3(s, root, Top, g / 0x200, Zeros());
      && Building(s0, s', root, g * 0x4_0000, g * 0x4_0000 + 1, count + 1)
      && EnsurePdpt(s, root, g * 0x4000_0000) == (s', true)
  {
    hide PmmOk, Used, TreeOk, Alloc, Or64, Tables, Built, EntryView, Under;
    GiBPlaces(g);
    RootIsDir(s.mem, root);
    AbsentFault(s.mem, root, g);
    EmptyLeaves();
    assert CanLink3(s0, s, root, Top, g / 0x200, Zeros(), count);
    Link3Grows(s0, s, root, Top, g / 0x200, Zeros(), count);
    Link3Resolves(s0, s, root, Top, g / 0x200, Zeros(), count);
    AllocSpec(s);
    var s' := Link3(s, root, Top, g / 0x200, Zeros());
    AbsentBuilt(s.mem, s'.mem, root, g);
    hide Resolve, Grown, CanLink3;
    assert StoreFrame(Alloc(s).0.mem, Alloc(s).1 / 0x1000, Zeros()) == Alloc(s).0.mem;
  }

  lemma RootIsDir(m: Memory, root: nat)
    ensures IsDir(m, root, Top) && TableAt(m, root, Top) == root
    ensures Resolve(m, root, Top) == Dir(root, true, true, false)
  {
  }

  lemma EmptyLeaves()
    ensures OnlyLeaves(2, Zeros())
  {
  }

  lemma AbsentFault(m: Memory, root: nat, g: nat)
    requires g < 0x4_0000 && Built(m, root, g * 0x4_0000, g * 0x4_0000)
    requires !Present(Load(m, root, g / 0x200))
    ensures Resolve(m, root, In(Top, g / 0x200)) == Fault && g % 0x200 == 0
  {
    GiBPlaces(g);
    var n := In(Top, g / 0x200);
    assert Resolve(m, root, n) == Fault;
    assert BuiltAt(Resolve(m, root, n), n, g * 0x4_0000, g * 0x4_0000);
    hide Resolve;
  }

  lemma AbsentBuilt(m: Memory, m': Memory, root: nat, g: nat)
    requires g < 0x4_0000 && g % 0x200 == 0 && Built(m, root, g * 0x4_0000, g * 0x4_0000)
    requires var c := In(Top, g / 0x200);
      && (forall p :: Depth(p) <= 4 && !Under(p, c) ==> Resolve(m', root, p) == Resolve(m, root, p))
      && (var v := Resolve(m', root, c); v.Dir? && v.wr && !v.user && !v.nx)
      && (forall j: Index ::
            Resolve(m', root, In(c, j)) == EntryView(2, Zeros()[j], true, false, false))
    ensures Built(m', root, g * 0x4_0000, g * 0x4_0000 + 1)
  {
    var b := g * 0x4_0000;
    var c := In(Top, g / 0x200);
    GiBPlaces(g);
    hide Resolve;
    forall p | 1 <= Depth(p) <= 4
      ensures BuiltAt(Resolve(m', root, p), p, b, b + 1)
    {
      assert BuiltAt(Resolve(m, root, p), p, b, b);
      if Under(p, c) {
        UnderFirstPage(p, c);
        UnderDepth(p, c);
        if p != c {
          var j := UnderChild(p, c);
          FaultUnder(m', root, p, In(c, j));
        }
      } else if Depth(p) == 1 && FirstPage(p) == b {
        FirstPageInjective(p, c);
      }
    }
  }

  /** The entries of a GiB's page directory. */
  lemma InitEntryView(g: nat, j: Index)
    requires g < 0x4_0000
    ensures var e := InitFrame(g * 0x4000_0000)[j];
      && Present(e) && LargePage(e)
      && EntryView(3, e, true, false, false) == Leaf(g * 0x4_0000 + 0x200 * j, true, false, false, IDENTITY_ATTR)
  {
    var page := g * 0x4_0000 + 0x200 * j;
    hide *;
    PageAligned(g, j);
    InitEntryIs(g, j);
    InitLeaf(page);
    LeafView(Or64(page * 0x1000, 0x83), page);
  }

  lemma PageAligned(g: nat, j: Index)
    requires g < 0x4_0000
    ensures var page := g * 0x4_0000 + 0x200 * j;
      page % 0x200 == 0 && page / 0x200 * 0x200 == page && page < 0x10_0000_0000
  {
    DivIs(g * 0x4_0000 + 0x200 * j, 0x200, g * 0x200 + j, 0);
  }

  lemma InitEntryIs(g: nat, j: Index)
    requires g < 0x4_0000
    ensures InitFrame(g * 0x4000_0000)[j] == Or64((g * 0x4_0000 + 0x200 * j) * 0x1000, 0x83)
  {
    hide Or64;
    assert g * 0x4000_0000 + j * 0x20_0000 == (g * 0x4_0000 + 0x200 * j) * 0x1000;
  }

  lemma LeafView(e: Word, page: nat)
    requires Present(e) && LargePage(e) && FrameOf(e) == page && page / 0x200 * 0x200 == page
    requires AttrOf(e) == Attr(true, false, false, false, false, false)
    ensures EntryView(3, e, true, false, false) == Leaf(page, true, false, false, IDENTITY_ATTR)
  {
    hide Present, LargePage, FrameOf;
  }

  lemma InitLeaves(g: nat)
    requires g < 0x4_0000
    ensures OnlyLeaves(3, InitFrame(g * 0x4000_0000))
  {
    hide Present, LargePage, InitFrame, EntryView;
    forall j: Index
      ensures LargePage(InitFrame(g * 0x4000_0000)[j])
    {
      InitEntryView(g, j);
    }
  }

  lemma StoresCommute(m: Memory, f: nat, content: Frame, t: nat, i: Index, w: Word)
    requires f < |m| && t < |m| && f != t
    ensures StoreFrame(Store(m, t, i, w), f, content) == Store(StoreFrame(m, f, content), t, i, w)
  {
  }

  /** Resolving below a filled directory. */
  lemma {:induction false} DirectoryResolves(m: Memory, root: nat, g: nat, c: Path, p: Path)
    requires g < 0x4_0000 && Depth(c) == 2 && FirstPage(c) == g * 0x4_0000
    requires forall j: Index ::
               Resolve(m, root, In(c, j)) == EntryView(3, InitFrame(g * 0x4000_0000)[j], true, false, false)
    requires Under(p, c) && p != c && Depth(p) <= 4
    ensures Resolve(m, root, p) == IdentityLeaf(p)
  {
    if p.parent == c {
      InitEntryView(g, p.idx);
    } else {
      UnderDepth(p.parent, c);
      DirectoryResolves(m, root, g, c, p.parent);
    }
    hide InitFrame, EntryView;
  }

  lemma DirectoryBuilt(m: Memory, m': Memory, root: nat, g: nat)
    requires g < 0x4_0000 && Built(m, root, g * 0x4_0000, g * 0x4_0000 + 1)
    requires var c := In(In(Top, g / 0x200), g % 0x200);
      && (forall p :: Depth(p) <= 4 && !Under(p, c) ==> Resolve(m', root, p) == Resolve(m, root, p))
      && (var v := Resolve(m', root, c); v.Dir? && v.wr && !v.user && !v.nx)
      && (forall j: Index ::
            Resolve(m', root, In(c, j)) == EntryView(3, InitFrame(g * 0x4000_0000)[j], true, false, false))
    ensures Built(m', root, (g + 1) * 0x4_0000, (g + 1) * 0x4_0000)
  {
    var b := g * 0x4_0000;
    var c := In(In(Top, g / 0x200), g % 0x200);
    GiBPlaces(g);
    hide Resolve, EntryView, InitFrame, BuiltAt, FirstPage, Under, Depth;
    forall p | 1 <= Depth(p) <= 4
      ensures BuiltAt(Resolve(m', root, p), p, b + 0x4_0000, b + 0x4_0000)
    {
      if Under(p, c) {
        BuiltInside(m', root, g, p, c);
      } else {
        assert BuiltAt(Resolve(m, root, p), p, b, b + 1);
        BuiltOutside(Resolve(m, root, p), g, p, c);
      }
    }
  }

  lemma BuiltInside(m: Memory, root: nat, g: nat, p: Path, c: Path)
    requires g < 0x4_0000 && c == In(In(Top, g / 0x200), g % 0x200) && Under(p, c) && Depth(p) <= 4
    requires var v := Resolve(m, root, c); v.Dir? && v.wr && !v.user && !v.nx
    requires forall j: Index ::
               Resolve(m, root, In(c, j)) == EntryView(3, InitFrame(g * 0x4000_0000)[j], true, false, false)
    ensures BuiltAt(Resolve(m, root, p), p, (g + 1) * 0x4_0000, (g + 1) * 0x4_0000)
  {
    hide Resolve, EntryView, InitFrame, Under;
    GiBPlaces(g);
    UnderDepth(p, c);
    if p != c {
      DirectoryResolves(m, root, g, c, p);
      DirectoryBounds(p, c);
    }
    hide FirstPage;
  }

  lemma BuiltOutside(v: View, g: nat, p: Path, c: Path)
    requires g < 0x4_0000 && c == In(In(Top, g / 0x200), g % 0x200) && !Under(p, c) && 1 <= Depth(p) <= 4
    requires BuiltAt(v, p, g * 0x4_0000, g * 0x4_0000 + 1)
    ensures BuiltAt(v, p, (g + 1) * 0x4_0000, (g + 1) * 0x4_0000)
  {
    hide Under, FirstPage;
    CornerPlace(g, c);
    if Depth(p) == 1 {
      TopPlace(p);
    } else if g * 0x4_0000 <= FirstPage(p) < (g + 1) * 0x4_0000 {
      InGiB(p, c, g);
    }
  }

  lemma CornerPlace(g: nat, c: Path)
    requires g < 0x4_0000 && c == In(In(Top, g / 0x200), g % 0x200)
    ensures Depth(c) == 2 && FirstPage(c) == g * 0x4_0000
  {
    GiBPlaces(g);
    hide FirstPage;
  }

  lemma TopPlace(p: Path)
    requires Depth(p) == 1
    ensures FirstPage(p) % 0x4_0000 == 0
  {
    FirstPageIsNumber(p);
    hide FirstPage, Number;
  }

  lemma DirectoryBounds(p: Path, c: Path)
    requires Under(p, c) && Depth(c) == 2 && Depth(p) <= 4
    ensures FirstPage(c) <= FirstPage(p) < FirstPage(c) + 0x4_0000
  {
    UnderFirstPage(p, c);
    if p != c && p.parent != c {
      UnderDepth(p, c);
      UnderDepth(p.parent, c);
      UnderDepth(p.parent.parent, c);
      assert p.parent.parent == c;
    }
  }

  ghost predicate DirectoryAdded(s0: Hal, s: Hal, root: nat, g: nat, count: nat)
    requires g < 0x4_0000 && IsDir(s.mem, root, In(Top, g / 0x200))
  {
    var (s', ok) := AddDirectory(s, TableAt(s.mem, root, In(Top, g / 0x200)), g * 0x4000_0000);
    ok && Building(s0, s', root, (g + 1) * 0x4_0000, (g + 1) * 0x4_0000, count + 1)
  }

  /** A filled page directory for GiB g. */
  lemma AddDirectorySpec(s0: Hal, s: Hal, root: nat, g: nat, count: nat)
    requires g < 0x4_0000 && IsDir(s.mem, root, In(Top, g / 0x200)) && Alloc(s).1 != 0
    requires Building(s0, s, root, g * 0x4_0000, g * 0x4_0000 + 1, count)
    ensures DirectoryAdded(s0, s, root, g, count)
  {
    DirectoryLinks(s0, s, root, g, count);
    DirectoryGrows(s0, s, root, g, count);
    AddsLink(s0, s, root, g, count);
    hide Alloc, Built, InitFrame, Resolve, CanLink3, Link3, AddDirectory, Grown;
    Link3Grows(s0, s, root, In(Top, g / 0x200), g % 0x200, InitFrame(g * 0x4000_0000), count);
  }

  lemma DirectoryGrows(s0: Hal, s: Hal, root: nat, g: nat, count: nat)
    requires g < 0x4_0000 && Building(s0, s, root, g * 0x4_0000, g * 0x4_0000 + 1, count)
    requires DirectoryFits(s0, s, root, g, count) && IsDir(s.mem, root, In(Top, g / 0x200))
    ensures Built(Link3(s, root, In(Top, g / 0x200), g % 0x200, InitFrame(g * 0x4000_0000)).mem, root,
                  (g + 1) * 0x4_0000, (g + 1) * 0x4_0000)
  {
    var n, content := In(Top, g / 0x200), InitFrame(g * 0x4000_0000);
    var i: Index := g % 0x200;
    var c := In(n, i);
    assert Depth(c) + 1 == 3;
    hide Alloc, Built, EntryView, Under, InitFrame, Resolve, CanLink3, Link3, Grown, FirstPage, Depth;
    DirectoryFault(s.mem, root, g);
    Link3Resolves(s0, s, root, n, i, content, count);
    var m' := Link3(s, root, n, i, content).mem;
    forall j: Index
      ensures Resolve(m', root, In(c, j)) == EntryView(3, content[j], true, false, false)
    {
    }
    DirectoryBuilt(s.mem, m', root, g);
  }

  lemma AddsLink(s0: Hal, s: Hal, root: nat, g: nat, count: nat)
    requires g < 0x4_0000 && Grown(s0, s, root, count) && Alloc(s).1 != 0 && IsDir(s.mem, root, In(Top, g / 0x200))
    ensures AddDirectory(s, TableAt(s.mem, root, In(Top, g / 0x200)), g * 0x4000_0000)
      == (Link3(s, root, In(Top, g / 0x200), g % 0x200, InitFrame(g * 0x4000_0000)), true)
  {
    hide PmmOk, Used, TreeOk, Alloc, Tables, InitFrame, Resolve, Link3, AddDirectory, FirstPage;
    GiBPlaces(g);
    AddIsLink(s, root, In(Top, g / 0x200), g, g % 0x200);
  }

  ghost predicate DirectoryFits(s0: Hal, s: Hal, root: nat, g: nat, count: nat)
    requires g < 0x4_0000
  {
    CanLink3(s0, s, root, In(Top, g / 0x200), g % 0x200, InitFrame(g * 0x4000_0000), count)
  }

  lemma DirectoryLinks(s0: Hal, s: Hal, root: nat, g: nat, count: nat)
    requires g < 0x4_0000 && IsDir(s.mem, root, In(Top, g / 0x200)) && Alloc(s).1 != 0
    requires Building(s0, s, root, g * 0x4_0000, g * 0x4_0000 + 1, count)
    ensures DirectoryFits(s0, s, root, g, count)
  {
    hide PmmOk, Used, TreeOk, Alloc, Tables, Built, InitFrame, OnlyLeaves, Resolve;
    GiBPlaces(g);
    InitLeaves(g);
    DirectoryFault(s.mem, root, g);
  }

  lemma AddIsLink(s: Hal, root: nat, n: Path, g: nat, i: Index)
    requires PmmOk(s) && TreeOk(s.mem, root, Used(s)) && IsDir(s.mem, root, n) && Alloc(s).1 != 0
    requires g < 0x4_0000 && i == g * 0x4000_0000 / 0x4000_0000 % 0x200
    ensures AddDirectory(s, TableAt(s.mem, root, n), g * 0x4000_0000)
      == (Link3(s, root, n, i, InitFrame(g * 0x4000_0000)), true)
  {
    AllocSpec(s);
    UsedBounds(s);
    TableInUse(s.mem, root, Used(s), n);
    var (s1, frame) := Alloc(s);
    var t := TableAt(s.mem, root, n);
    hide PmmOk, Used, TreeOk, Alloc, Or64, InitFrame, Resolve, Store, StoreFrame;
    StoresCommute(s1.mem, frame / 0x1000, InitFrame(g * 0x4000_0000), t, i, Or64(frame, 3));
  }

  lemma DirectoryFault(m: Memory, root: nat, g: nat)
    requires g < 0x4_0000 && Built(m, root, g * 0x4_0000, g * 0x4_0000 + 1)
    ensures Resolve(m, root, In(In(Top, g / 0x200), g % 0x200)) == Fault
    ensures var v := Resolve(m, root, In(Top, g / 0x200)); v.Dir? && v.wr && !v.nx
  {
    GiBPlaces(g);
    var n := In(Top, g / 0x200);
    var c := In(n, g % 0x200);
    assert Depth(n) == 1 && Depth(c) == 2;
    assert BuiltAt(Resolve(m, root, n), n, g * 0x4_0000, g * 0x4_0000 + 1);
    assert BuiltAt(Resolve(m, root, c), c, g * 0x4_0000, g * 0x4_0000 + 1);
    hide Resolve;
  }

  /** An allocation that fails while building has used up every frame. */
  lemma OutOfFrames(s0: Hal, s: Hal, root: nat, b: nat, d: nat, count: nat)
    requires Building(s0, s, root, b, d, count) && Alloc(s).1 == 0 && s0.base > 0
    ensures s0.free == count
  {
    BuildingFree(s0, s, root, b, d, count);
    AllocSpec(s);
    assert s.cursor >= s.base;
    hide Used, Tables, TreeOk, Built, Alloc;
  }

  /** What a round, or a run of rounds up to GiB g, promises. */
  ghost predicate RoundDone(s0: Hal, s': Hal, root: nat, g: nat, ok: bool) {
    && PmmOk(s') && Used(s0) <= Used(s')
    && (ok ==> Building(s0, s', root, g * 0x4_0000, g * 0x4_0000, Needed(g)))
    && (!ok && s0.base > 0 ==> s0.free < Needed(g))
  }

  lemma EnsurePdptSpec(s0: Hal, s: Hal, root: nat, g: nat)
    requires g < 0x4_0000 && Building(s0, s, root, g * 0x4_0000, g * 0x4_0000, Needed(g))
    ensures var (s1, ok) := EnsurePdpt(s, root, g * 0x4000_0000);
      && (ok ==> Building(s0, s1, root, g * 0x4_0000, g * 0x4_0000 + 1, Needed(g + 1) - 1))
      && (!ok ==> s1 == s && (s0.base > 0 ==> s0.free < Needed(g + 1)))
  {
    GiBPlaces(g);
    if Present(Load(s.mem, root, g / 0x200)) {
      EnsurePresent(s0, s, root, g, Needed(g));
      hide Building;
      CeilSame(g);
    } else if Alloc(s).1 == 0 {
      AllocSpec(s);
      if s0.base > 0 {
        OutOfFrames(s0, s, root, g * 0x4_0000, g * 0x4_0000, Needed(g));
      }
      hide Building, Alloc, PmmOk;
      NeededGrows(g);
    } else {
      EnsureAbsent(s0, s, root, g, Needed(g));
      hide Building, Alloc, PmmOk, Link3;
      CeilNext(g);
    }
  }

  lemma CeilSame(g: nat)
    requires g % 0x200 != 0
    ensures Needed(g + 1) == Needed(g) + 1
  {
  }

  lemma CeilNext(g: nat)
    requires g % 0x200 == 0
    ensures Needed(g + 1) == Needed(g) + 2
  {
  }

  lemma NeededGrows(g: nat)
    ensures Needed(g) < Needed(g + 1)
  {
  }

  lemma MapGiBSpec(s0: Hal, s: Hal, root: nat, g: nat)
    requires g < 0x4_0000 && Building(s0, s, root, g * 0x4_0000, g * 0x4_0000, Needed(g))
    ensures var (s', ok) := MapGiB(s, root, g * 0x4000_0000);
      RoundDone(s0, s', root, g + 1, ok)
  {
    hide EnsurePdpt, AddDirectory, PmmOk, Used, TreeOk, Tables, Alloc, Built, Needed;
    var (s1, ok) := EnsurePdpt(s, root, g * 0x4000_0000);
    EnsurePdptSpec(s0, s, root, g);
    if ok {
      GiBIndex(g);
      FillSpec(s0, s1, root, g);
    }
  }

  lemma GiBIndex(g: nat)
    requires g < 0x4_0000
    ensures g * 0x4000_0000 / 0x80_0000_0000 % 0x200 == g / 0x200
  {
    GiBPlaces(g);
  }

  ghost predicate FillDone(s0: Hal, s: Hal, root: nat, g: nat)
    requires g < 0x4_0000
  {
    var (s', ok) := AddDirectory(s, Load(s.mem, root, g / 0x200) / 0x1000, g * 0x4000_0000);
    RoundDone(s0, s', root, g + 1, ok)
  }

  /** The second half of a round. */
  lemma FillSpec(s0: Hal, s: Hal, root: nat, g: nat)
    requires g < 0x4_0000 && Building(s0, s, root, g * 0x4_0000, g * 0x4_0000 + 1, Needed(g + 1) - 1)
    ensures FillDone(s0, s, root, g)
  {
    hide PmmOk, Used, TreeOk, Tables, Alloc, Built, Needed, Resolve;
    var n := In(Top, g / 0x200);
    DirectoryPlace(s0, s, root, g, Needed(g + 1) - 1);
    AllocSpec(s);
    if Alloc(s).1 == 0 {
      if s0.base > 0 {
        OutOfFrames(s0, s, root, g * 0x4_0000, g * 0x4_0000 + 1, Needed(g + 1) - 1);
      }
    } else {
      AddDirectorySpec(s0, s, root, g, Needed(g + 1) - 1);
    }
  }

  /** The PML4 entry read back by the code is the table the tree has there. */
  lemma DirectoryPlace(s0: Hal, s: Hal, root: nat, g: nat, count: nat)
    requires g < 0x4_0000 && Building(s0, s, root, g * 0x4_0000, g * 0x4_0000 + 1, count)
    ensures var n := In(Top, g / 0x200);
      IsDir(s.mem, root, n) && TableAt(s.mem, root, n) == Load(s.mem, root, g / 0x200) / 0x1000
  {
    var n := In(Top, g / 0x200);
    DirectoryFault(s.mem, root, g);
    RootIsDir(s.mem, root);
    ReadLevel(s.mem, root, Used(s), Top, g / 0x200);
    hide Resolve, PmmOk, Used, Tables, TreeOk, Built;
  }

  lemma {:induction false} MapFromSpec(s0: Hal, s: Hal, root: nat, g: nat, limit: Word)
    requires limit <= 0x1_0000_0000_0000 && g <= (limit + 0x3FFF_FFFF) / 0x4000_0000
    requires Building(s0, s, root, g * 0x4_0000, g * 0x4_0000, Needed(g))
    ensures var (s', ok) := MapFrom(s, root, g * 0x4000_0000, limit);
      RoundDone(s0, s', root, (limit + 0x3FFF_FFFF) / 0x4000_0000, ok)
    decreases limit - g * 0x4000_0000
  {
    hide Built, PmmOk, Used, TreeOk, Tables, MapGiB;
    var last := (limit + 0x3FFF_FFFF) / 0x4000_0000;
    if g * 0x4000_0000 >= limit {
      assert g == last;
    } else {
      assert g < last;
      var (s1, ok) := MapGiB(s, root, g * 0x4000_0000);
      MapGiBSpec(s0, s, root, g);
      if ok {
        MapFromSpec(s0, s1, root, g + 1, limit);
      } else {
        NeededMonotone(g + 1, last);
      }
    }
  }

  lemma NeededMonotone(a: nat, b: nat)
    requires a <= b
    ensures Needed(a) <= Needed(b)
  {
  }

  // ---------------------------------------------------------------- the whole map

  /** Every page below `pages` translates to itself, writable for the kernel only; no other page is mapped. */
  ghost predicate IdentityMap(m: Memory, root: nat, pages: nat) {
    forall p :: Depth(p) == 4 ==> Resolve(m, root, p) == if FirstPage(p) < pages then IdentityLeaf(p) else Fault
  }

  lemma BuiltIsIdentity(m: Memory, root: nat, pages: nat)
    requires Built(m, root, pages, pages)
    ensures IdentityMap(m, root, pages)
  {
    hide Resolve;
    forall p | Depth(p) == 4
      ensures Resolve(m, root, p) == if FirstPage(p) < pages then IdentityLeaf(p) else Fault
    {
      assert BuiltAt(Resolve(m, root, p), p, pages, pages);
    }
  }

  /** GiBs below a limit, rounded up. */
  function GiBs(limit: Word): nat {
    (limit + 0x3FFF_FFFF) / 0x4000_0000
  }

  /** mm_init_kernel_tables succeeds exactly when the pool has enough frames, takes exactly
      1 + ceil(limit / 512 GiB) + ceil(limit / 1 GiB) of them, all of them tables, and identity-maps every page below
      the limit rounded up to a GiB. */
  lemma InitKernelTablesSpec(s: Hal, limit: Word)
    requires PmmOk(s) && limit <= 0x1_0000_0000_0000
    ensures var (s', pml4) := InitKernelTables(s, limit);
      var root := pml4 / 0x1000;
      && PmmOk(s') && Used(s) <= Used(s')
      && (s.base > 0 ==> (pml4 != 0 <==> s.free >= Needed(GiBs(limit))))
      && (pml4 != 0 ==>
            && root != 0 && pml4 % 0x1000 == 0
            && Sound(s', root)
            && IdentityMap(s'.mem, root, GiBs(limit) * 0x4_0000)
            && Tables(s'.mem, root) == Used(s') - Used(s)
            && s'.used == s.used + Needed(GiBs(limit))
            && s'.base == s.base && s'.end == s.end && |s'.mem| == |s.mem|)
  {
    hide Used, TreeOk, Tables, Alloc, Built, MapFrom;
    AllocSpec(s);
    var (s1, pml4) := Alloc(s);
    if pml4 == 0 {
      hide PmmOk;
      if s.base > 0 { assert s.free == 0 by { FirstAllocFails(s); } }
    } else {
      BuildRoot(s);
      MapFromSpec(s, s1, pml4 / 0x1000, 0, limit);
      hide PmmOk;
      var (s2, ok) := MapFrom(s1, pml4 / 0x1000, 0, limit);
      if ok {
        FinishMap(s, s2, pml4 / 0x1000, GiBs(limit));
      }
    }
  }

  lemma FirstAllocFails(s: Hal)
    requires PmmOk(s) && s.base > 0 && Alloc(s).1 == 0
    ensures s.free == 0
  {
    AllocSpec(s);
  }

  lemma FinishMap(s0: Hal, s: Hal, root: nat, g: nat)
    requires Building(s0, s, root, g * 0x4_0000, g * 0x4_0000, Needed(g))
    ensures Sound(s, root) && IdentityMap(s.mem, root, g * 0x4_0000)
    ensures Tables(s.mem, root) == Used(s) - Used(s0) && s.used == s0.used + Needed(g) && s0.free >= Needed(g)
  {
    BuiltPolicy(s.mem, root, g * 0x4_0000, g * 0x4_0000);
    BuiltIsIdentity(s.mem, root, g * 0x4_0000);
    BuildingFree(s0, s, root, g * 0x4_0000, g * 0x4_0000, Needed(g));
    UsedCount(s0);
    UsedCount(s);
    hide PmmOk, Used, TreeOk, Tables, Built, Needed;
  }

  /** The walk looks at 48 bits of an address only. */
  lemma WalkAliases(m: Memory, cr3: Word)
    ensures GetPageAddr(m, cr3, 0x1_0000_0000_0000) == GetPageAddr(m, cr3, 0)
  {
    hide Load;
    IndexAliases(39);
    IndexAliases(30);
    IndexAliases(21);
    IndexAliases(12);
    hide IndexAt;
  }

  lemma IndexAliases(shift: Shift)
    ensures IndexAt(0x1_0000_0000_0000, shift) == IndexAt(0, shift)
  {
  }

  /** Given the frames, the boot-time tables translate every address below the limit to itself exactly when the limit
      is at most 2^48, and the processor accepts these addresses as well exactly when it is at most 2^47. */
  lemma IdentityReach(s: Hal, limit: Word)
    requires PmmOk(s) && s.base > 0 && s.free >= Needed(GiBs(limit)) && limit <= 0xFFFF_FFFF_C000_0000
    ensures var (s', pml4) := InitKernelTables(s, limit);
      && ((forall a: Word :: a < limit ==> GetPageAddr(s'.mem, pml4, a) == a) <==> limit <= 0x1_0000_0000_0000)
      && ((forall a: Word :: a < limit ==> Canonical(a) && GetPageAddr(s'.mem, pml4, a) == a)
          <==> limit <= 0x8000_0000_0000)
  {
    var (s', pml4) := InitKernelTables(s, limit);
    hide InitKernelTables, GetPageAddr, PmmOk, Needed, Used, Tables, Resolve, Sound;
    assert !Canonical(0x8000_0000_0000);
    if limit <= 0x1_0000_0000_0000 {
      InitKernelTablesSpec(s, limit);
      forall a: Word | a < limit
        ensures GetPageAddr(s'.mem, pml4, a) == a
      {
        MappedToItself(s', pml4, limit, a);
      }
    } else {
      WalkAliases(s'.mem, pml4);
    }
  }

  lemma MappedToItself(s: Hal, pml4: Word, limit: Word, a: Word)
    requires Sound(s, pml4 / 0x1000) && IdentityMap(s.mem, pml4 / 0x1000, GiBs(limit) * 0x4_0000)
    requires a < limit <= 0x1_0000_0000_0000
    ensures GetPageAddr(s.mem, pml4, a) == a
  {
    PathOfPage(a);
    Euclid(a, 0x1000);
    Euclid(limit + 0x3FFF_FFFF, 0x4000_0000);
    DivIs(a / 0x1000, 0x10_0000_0000, 0, a / 0x1000);
    GetPageAddrSpec(s, pml4, a);
    hide Sound, GetPageAddr, Resolve, PathOf, FirstPage;
  }

  /** The frame count in bytes: one PML4, a table per 512 GiB and a directory per GiB, each rounded up. */
  lemma NeededForLimit(limit: Word)
    ensures Needed(GiBs(limit)) == 1 + (limit + 0x7F_FFFF_FFFF) / 0x80_0000_0000 + (limit + 0x3FFF_FFFF) / 0x4000_0000
  {
    var g := GiBs(limit);
    DivDiv(limit + 0x7F_FFFF_FFFF, 0x4000_0000, 0x200);
    assert (limit + 0x7F_FFFF_FFFF) / 0x4000_0000 == g + 0x1FF;
  }
}
