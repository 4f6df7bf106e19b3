/** What the page-table manager promises. */
module PagingProofs {
  import opened Words
  import opened PhysicalMemory
  import opened FrameAllocator
  import opened PageTables
  import opened TableSteps
  import opened Entries
  import opened PagingManager

  /** The state of a running kernel: allocator, tree of tables, and leaf policy, for the PML4 in frame `root`. */
  ghost predicate Sound(s: Hal, root: nat) {
    && PmmOk(s)
    && TreeOk(s.mem, root, Used(s))
    && LeafCarriesPolicy(s.mem, root)
  }

  /** From s to s' only the pages in `pages` changed their translation, every frame taken is either a linked table
      or one of `held`, and no frame in other hands, inside or outside the pool, was written. */
  ghost predicate Evolves(s: Hal, s': Hal, root: nat, pages: set<Path>, held: set<nat>) {
    && Sound(s, root) && Sound(s', root)
    && s'.base == s.base && s'.end == s.end && |s'.mem| == |s.mem|
    && Accounted(s, s', root, held)
    && (forall f | 0 <= f < |s.mem| && Foreign(s, root, f) :: s'.mem[f] == s.mem[f])
    && SamePages(s.mem, s'.mem, root, pages)
    && DirsKept(s.mem, s'.mem, root)
  }

  /** Places that hold tables keep doing so. */
  ghost predicate DirsKept(m: Memory, m': Memory, root: nat) {
    forall n :: IsDir(m, root, n) ==> IsDir(m', root, n)
  }

  /** Every frame taken since s is a newly linked table or one of `held`. */
  ghost predicate Accounted(s: Hal, s': Hal, root: nat, held: set<nat>) {
    && Tables(s.mem, root) <= Tables(s'.mem, root)
    && (Tables(s'.mem, root) - Tables(s.mem, root)) !! Used(s)
    && held !! Used(s) && held !! Tables(s'.mem, root)
    && Used(s') == Used(s) + (Tables(s'.mem, root) - Tables(s.mem, root)) + held
  }

  /** Pages outside `pages` translate as before. */
  ghost predicate SamePages(m: Memory, m': Memory, root: nat, pages: set<Path>) {
    forall p | Depth(p) == 4 && p !in pages :: Resolve(m', root, p) == Resolve(m, root, p)
  }

  /** f is no business of the page-table manager: handed out but no table, or outside the pool. */
  ghost predicate Foreign(s: Hal, root: nat, f: nat) {
    || (f in Used(s) && f !in Tables(s.mem, root))
    || !(s.base <= f * 0x1000 < s.end)
  }

  lemma TablesUsed(s: Hal, root: nat)
    requires Sound(s, root)
    ensures Tables(s.mem, root) <= Used(s)
  {
    hide PmmOk, Used, Resolve, LeafCarriesPolicy;
  }

  lemma TableAtUsed(s: Hal, root: nat, n: Path)
    requires Sound(s, root) && IsDir(s.mem, root, n)
    ensures var t := TableAt(s.mem, root, n);
      t in Used(s) && t < |s.mem| && t in Tables(s.mem, root) && !Foreign(s, root, t)
  {
    UsedBounds(s);
    hide PmmOk, Used, Resolve, LeafCarriesPolicy;
    assert IsTable(s.mem, root, TableAt(s.mem, root, n));
  }

  lemma EvolvesRefl(s: Hal, root: nat)
    requires Sound(s, root)
    ensures Evolves(s, s, root, {}, {})
  {
    hide PmmOk, Used, TreeOk, LeafCarriesPolicy, Tables, Resolve, Foreign;
  }

  lemma EvolvesTrans(a: Hal, b: Hal, c: Hal, root: nat, p: set<Path>, q: set<Path>, x: set<nat>, y: set<nat>)
    requires Evolves(a, b, root, p, x) && Evolves(b, c, root, q, y)
    ensures Evolves(a, c, root, p + q, x + y)
  {
    TablesUsed(a, root);
    TablesUsed(b, root);
    hide PmmOk, Used, TreeOk, LeafCarriesPolicy, Tables, Resolve, Sound;
    var ta, tb, tc := Tables(a.mem, root), Tables(b.mem, root), Tables(c.mem, root);
    assert Used(c) == Used(a) + (tc - ta) + (x + y);
    forall f | 0 <= f < |a.mem| && Foreign(a, root, f)
      ensures c.mem[f] == a.mem[f]
    {
      assert Foreign(b, root, f);
    }
  }

  lemma EvolvesThen(a: Hal, b: Hal, c: Hal, root: nat, q: set<Path>, y: set<nat>)
    requires Evolves(a, b, root, {}, {}) && Evolves(b, c, root, q, y)
    ensures Evolves(a, c, root, q, y)
  {
    EvolvesTrans(a, b, c, root, {}, q, {}, y);
    hide Evolves;
    var p: set<Path>, x: set<nat> := {}, {};
    assert p + q == q && x + y == y;
  }

  /** Rewriting a frame that holds no table, while the tables' frames stay in use, keeps every place. */
  lemma FrameWritten(s: Hal, s': Hal, root: nat, f: nat, content: Frame)
    requires Sound(s, root) && PmmOk(s') && f < |s.mem| && f !in Tables(s.mem, root)
    requires s'.mem == s.mem[f := content] && Tables(s.mem, root) <= Used(s')
    ensures Sound(s', root)
    ensures forall n :: Depth(n) <= 4 ==> Resolve(s'.mem, root, n) == Resolve(s.mem, root, n)
    ensures Tables(s'.mem, root) == Tables(s.mem, root)
    ensures SamePages(s.mem, s'.mem, root, {}) && SamePages(s'.mem, s.mem, root, {})
    ensures DirsKept(s.mem, s'.mem, root)
  {
    hide PmmOk, Used, Resolve;
    assert !IsTable(s.mem, root, f);
    WriteElsewhere(s.mem, root, f, content);
    TablesInTables(s, root);
    TreeUnchanged(s.mem, s'.mem, root, Tables(s.mem, root), Used(s'));
  }

  lemma TablesInTables(s: Hal, root: nat)
    requires Sound(s, root)
    ensures TreeOk(s.mem, root, Tables(s.mem, root))
  {
    hide PmmOk, Used, Resolve, LeafCarriesPolicy;
    forall n | IsDir(s.mem, root, n)
      ensures TableAt(s.mem, root, n) in Tables(s.mem, root)
    {
      assert IsTable(s.mem, root, TableAt(s.mem, root, n));
    }
  }

  /** A memory in which every place resolves as before and every table reads as before is as good. */
  lemma TreeUnchanged(m: Memory, m': Memory, root: nat, used: set<nat>, used': set<nat>)
    requires TreeOk(m, root, used) && used <= used' && |m| == |m'|
    requires forall n :: Depth(n) <= 4 ==> Resolve(m', root, n) == Resolve(m, root, n)
    requires forall n, i: Index :: IsDir(m, root, n) ==>
               Load(m', TableAt(m, root, n), i) == Load(m, TableAt(m, root, n), i)
    ensures TreeOk(m', root, used')
    ensures LeafCarriesPolicy(m, root) ==> LeafCarriesPolicy(m', root)
  {
    hide Resolve;
    assert forall n :: IsDir(m', root, n) <==> IsDir(m, root, n);
    assert forall n :: IsDir(m', root, n) ==> TableAt(m', root, n) == TableAt(m, root, n);
  }

  /** Taking a frame for oneself. */
  lemma AllocEvolves(s: Hal, root: nat)
    requires Sound(s, root) && Alloc(s).1 != 0
    ensures var (s', frame) := Alloc(s);
      && Evolves(s, s', root, {}, {frame / 0x1000})
      && frame / 0x1000 < |s.mem| && frame < 0x10_0000_0000_0000 && frame % 0x1000 == 0 && frame / 0x1000 !in Used(s)
      && s'.mem == s.mem[frame / 0x1000 := Zeros()]
      && Tables(s'.mem, root) == Tables(s.mem, root)
  {
    hide PmmOk, Used, Resolve, Alloc, TreeOk, LeafCarriesPolicy, Tables, SamePages, DirsKept;
    AllocSpec(s);
    UsedBounds(s);
    TablesUsed(s, root);
    var (s', frame) := Alloc(s);
    FrameWritten(s, s', root, frame / 0x1000, Zeros());
    assert Accounted(s, s', root, {frame / 0x1000});
  }

  /** Writing a frame one holds. */
  lemma WriteHeld(s0: Hal, s: Hal, root: nat, pages: set<Path>, held: set<nat>, f: nat, content: Frame)
    requires Evolves(s0, s, root, pages, held) && f in held
    ensures f < |s.mem|
    ensures var s' := s.(mem := s.mem[f := content]);
      && Evolves(s0, s', root, pages, held)
      && (forall n :: Depth(n) <= 4 ==> Resolve(s'.mem, root, n) == Resolve(s.mem, root, n))
      && (forall n :: IsDir(s'.mem, root, n) <==> IsDir(s.mem, root, n))
  {
    hide PmmOk, Used, Resolve, TreeOk, LeafCarriesPolicy, Tables;
    UsedBounds(s);
    TablesUsed(s, root);
    var s' := s.(mem := s.mem[f := content]);
    StoreSpec(s, f, content);
    FrameWritten(s, s', root, f, content);
    HeldNotForeign(s0, s, root, pages, held, f);
    hide SamePages, DirsKept, Sound, Foreign;
    assert Accounted(s0, s', root, held);
    SamePagesTrans(s0.mem, s.mem, s'.mem, root, pages);
    DirsKeptTrans(s0.mem, s.mem, s'.mem, root);
  }

  lemma HeldNotForeign(s0: Hal, s: Hal, root: nat, pages: set<Path>, held: set<nat>, f: nat)
    requires Evolves(s0, s, root, pages, held) && f in held
    ensures !Foreign(s0, root, f) && f in Used(s) && f !in Tables(s.mem, root) && f < |s.mem|
  {
    UsedBounds(s);
    hide PmmOk, Used, TreeOk, LeafCarriesPolicy, Tables, SamePages, DirsKept;
  }

  lemma SamePagesTrans(a: Memory, b: Memory, c: Memory, root: nat, pages: set<Path>)
    requires SamePages(a, b, root, pages) && SamePages(b, c, root, {})
    ensures SamePages(a, c, root, pages)
  {
    hide Resolve;
  }

  lemma DirsKeptTrans(a: Memory, b: Memory, c: Memory, root: nat)
    requires DirsKept(a, b, root) && DirsKept(b, c, root)
    ensures DirsKept(a, c, root)
  {
    hide IsDir;
  }

  /** Giving back a frame one holds. */
  lemma FreeHeld(s0: Hal, s: Hal, root: nat, pages: set<Path>, held: set<nat>, f: nat)
    requires Evolves(s0, s, root, pages, held) && f in held && f > 0
    ensures f * 0x1000 < 0x10_0000_0000_0000
    ensures var s' := Free(s, f * 0x1000);
      && Evolves(s0, s', root, pages, held - {f})
      && (forall n :: Depth(n) <= 4 ==> Resolve(s'.mem, root, n) == Resolve(s.mem, root, n))
      && (forall g :: 0 <= g < |s.mem| && g != f ==> s'.mem[g] == s.mem[g])
  {
    hide PmmOk, Used, Resolve, TreeOk, LeafCarriesPolicy, Tables, FreeList;
    UsedBounds(s);
    TablesUsed(s, root);
    HeldNotForeign(s0, s, root, pages, held, f);
    var s' := Free(s, f * 0x1000);
    FreeSpec(s, f * 0x1000);
    hide Free;
    FrameWritten(s, s', root, f, s.mem[f][0 := s.head]);
    hide SamePages, DirsKept, Sound, Foreign;
    FreeAccounted(s0, s, s', root, held, f);
    SamePagesTrans(s0.mem, s.mem, s'.mem, root, pages);
    DirsKeptTrans(s0.mem, s.mem, s'.mem, root);
  }

  lemma FreeAccounted(s0: Hal, s: Hal, s': Hal, root: nat, held: set<nat>, f: nat)
    requires Accounted(s0, s, root, held) && f in held
    requires Tables(s'.mem, root) == Tables(s.mem, root) && Used(s') == Used(s) - {f}
    ensures Accounted(s0, s', root, held - {f})
  {
    hide Tables, Used;
  }

  // ---------------------------------------------------------------- one level of the walk

  /** The shift at which the walk indexes a table of the given depth. */
  function ShiftAt(depth: nat): Shift {
    if depth == 0 then 39 else if depth == 1 then 30 else if depth == 2 then 21 else 12
  }

  /** The state after allocating a frame, filling it and linking it at entry i of the table at n. */
  function LinkState(s: Hal, root: nat, n: Path, i: Index, content: Frame): Hal
    requires IsDir(s.mem, root, n)
  {
    var (s1, frame) := Alloc(s);
    s1.(mem := Store(StoreFrame(s1.mem, frame / 0x1000, content), TableAt(s.mem, root, n), i, Or64(frame, 7)))
  }

  /** The content shows at its entries what the place In(n, i) showed at its children. */
  ghost predicate Shows(m: Memory, root: nat, n: Path, i: Index, content: Frame)
    requires IsDir(m, root, n)
  {
    var v := Resolve(m, root, n);
    forall j: Index ::
      EntryView(Depth(n) + 2, content[j], v.wr, v.user, v.nx)
      == ChildView(m, Resolve(m, root, In(n, i)), Depth(n) + 2, j)
  }

  ghost predicate CanLinkState(s: Hal, root: nat, n: Path, i: Index, content: Frame) {
    && Sound(s, root) && IsDir(s.mem, root, n) && Depth(n) <= 2
    && Alloc(s).1 != 0
    && !Resolve(s.mem, root, In(n, i)).Dir?
    && OnlyLeaves(Depth(n) + 2, content)
    && Shows(s.mem, root, n, i, content)
  }

  lemma LinkStateIs(s: Hal, root: nat, n: Path, i: Index, content: Frame)
    requires CanLinkState(s, root, n, i, content)
    ensures var f, e := Alloc(s).1 / 0x1000, Or64(Alloc(s).1, 7);
      && f < |s.mem| && f !in Used(s)
      && CanLink(s.mem, root, Used(s), n, i, f, content, e)
      && Wr(e) && User(e) && e / 0x1000 == f
      && Sound(s, root) && IsDir(s.mem, root, n) && Shows(s.mem, root, n, i, content)
      && LinkState(s, root, n, i, content).mem == Linked(s.mem, root, n, i, f, content, e)
  {
    AllocSpec(s);
    UsedBounds(s);
    var (s1, frame) := Alloc(s);
    var f := frame / 0x1000;
    TableEntry(frame, 7);
    hide PmmOk, Used, TreeOk, LeafCarriesPolicy, Resolve, Alloc, Or64, Present, LargePage, FrameOf, Wr, User, Shows;
    assert s1.mem[f := content] == s.mem[f := content];
  }

  lemma LinkStatePmm(s: Hal, root: nat, n: Path, i: Index, content: Frame)
    requires CanLinkState(s, root, n, i, content)
    ensures var s' := LinkState(s, root, n, i, content);
      PmmOk(s') && Used(s') == Used(s) + {Alloc(s).1 / 0x1000} && s'.base == s.base && s'.end == s.end
  {
    TableAtUsed(s, root, n);
    AllocFillStore(s, TableAt(s.mem, root, n), i, content, Or64(Alloc(s).1, 7));
    hide PmmOk, Used, TreeOk, LeafCarriesPolicy, Resolve, Alloc, Or64, Shows;
  }

  /** Linking writes the linked table and the fresh frame only. */
  lemma LinkStateFrames(s: Hal, root: nat, n: Path, i: Index, content: Frame)
    requires CanLinkState(s, root, n, i, content)
    ensures var s' := LinkState(s, root, n, i, content);
      && |s'.mem| == |s.mem|
      && (forall f | 0 <= f < |s.mem| && Foreign(s, root, f) :: s'.mem[f] == s.mem[f])
  {
    AllocSpec(s);
    LinkStateIs(s, root, n, i, content);
    TableAtUsed(s, root, n);
    hide PmmOk, Used, TreeOk, LeafCarriesPolicy, Tables, Resolve, Alloc, Or64, CanLink, CanLinkState;
    var f := Alloc(s).1 / 0x1000;
    assert !Foreign(s, root, f);
  }

  lemma LinkStatePages(s: Hal, root: nat, n: Path, i: Index, content: Frame)
    requires CanLinkState(s, root, n, i, content)
    ensures var s' := LinkState(s, root, n, i, content);
      SamePages(s.mem, s'.mem, root, {}) && LeafCarriesPolicy(s'.mem, root)
  {
    var f, e := Alloc(s).1 / 0x1000, Or64(Alloc(s).1, 7);
    LinkStateIs(s, root, n, i, content);
    LinkedPages(s, root, n, i, f, content, e);
    hide *;
  }

  lemma LinkedPages(s: Hal, root: nat, n: Path, i: Index, f: nat, content: Frame, e: Word)
    requires Sound(s, root) && CanLink(s.mem, root, Used(s), n, i, f, content, e) && Wr(e) && User(e)
    requires IsDir(s.mem, root, n) && Shows(s.mem, root, n, i, content)
    ensures var m' := Linked(s.mem, root, n, i, f, content, e);
      SamePages(s.mem, m', root, {}) && LeafCarriesPolicy(m', root)
  {
    hide PmmOk, Used, TreeOk, CanLink, Wr, User, EntryView, Resolve, Linked, ChildView;
    LinkPages(s.mem, root, Used(s), n, i, f, content, e);
  }

  lemma AccountedByOne(s: Hal, s': Hal, root: nat, f: nat)
    requires Tables(s'.mem, root) == Tables(s.mem, root) + {f} && Used(s') == Used(s) + {f}
    requires f !in Used(s) && Tables(s.mem, root) <= Used(s)
    ensures Accounted(s, s', root, {})
  {
    hide Tables, Used;
    assert Tables(s'.mem, root) - Tables(s.mem, root) == {f};
  }

  /** Linking a fresh table that shows what was there before. */
  lemma LinkStateEvolves(s: Hal, root: nat, n: Path, i: Index, content: Frame)
    requires CanLinkState(s, root, n, i, content)
    ensures Evolves(s, LinkState(s, root, n, i, content), root, {}, {})
  {
    hide Resolve, PmmOk, Used, TreeOk, LeafCarriesPolicy, Tables, Alloc, Linked, LinkState, Or64, Foreign, SamePages,
      CanLink, CanLinkState, Accounted, IsDir, Shows, Wr, User;
    var f, e := Alloc(s).1 / 0x1000, Or64(Alloc(s).1, 7);
    LinkStateIs(s, root, n, i, content);
    var s' := LinkState(s, root, n, i, content);
    LinkStatePmm(s, root, n, i, content);
    LinkStateFrames(s, root, n, i, content);
    LinkKeepsTree(s.mem, root, Used(s), n, i, f, content, e);
    LinkStatePages(s, root, n, i, content);
    TablesUsed(s, root);
    AccountedByOne(s, s', root, f);
  }

  /** The new table's place inherits all the rights. */
  lemma LinkStateChild(s: Hal, root: nat, n: Path, i: Index, content: Frame)
    requires CanLinkState(s, root, n, i, content)
    ensures var s' := LinkState(s, root, n, i, content);
      && Resolve(s'.mem, root, n) == Resolve(s.mem, root, n)
      && Resolve(s'.mem, root, In(n, i)) == Resolve(s.mem, root, n).(table := Alloc(s).1 / 0x1000)
      && Load(s'.mem, TableAt(s.mem, root, n), i) / 0x1000 == Alloc(s).1 / 0x1000
  {
    var f, e := Alloc(s).1 / 0x1000, Or64(Alloc(s).1, 7);
    LinkStateIs(s, root, n, i, content);
    LinkResolves(s.mem, root, Used(s), n, i, f, content, e);
    LinkLoads(s.mem, root, Used(s), n, i, f, content, e);
    NotUnderChild(n, i);
    hide Resolve, PmmOk, Used, TreeOk, LeafCarriesPolicy, Alloc, Linked, LinkState, Or64, CanLink, Wr, User, Shows;
  }

  /** The frames a walk may use are gone. */
  ghost predicate Exhausted(s: Hal) {
    s.free == 0 || (FreeList(s) == [] && s.cursor == 0)
  }

  /** Without a region at address 0 that means a free count of zero. */
  lemma NoneFree(s: Hal)
    requires PmmOk(s) && Exhausted(s) && s.base > 0
    ensures s.free == 0
  {
    hide Used;
  }

  /** A table reached with all rights. */
  predicate OpenDir(v: View) {
    v.Dir? && v.wr && v.user && !v.nx
  }

  /** What one level of the walk promises. */
  ghost predicate StepDone(s: Hal, s': Hal, root: nat, n: Path, i: Index, alloc: bool, ok: bool)
    requires IsDir(s.mem, root, n)
  {
    && Evolves(s, s', root, {}, {})
    && (alloc ==> (ok <==> IsDir(s.mem, root, In(n, i)) || !Exhausted(s)))
    && (!alloc ==> (ok <==> IsDir(s.mem, root, In(n, i))) && SameShape(s, s', root))
    && (!ok ==> s' == s)
    && (ok ==>
          && IsDir(s'.mem, root, In(n, i))
          && TableAt(s'.mem, root, In(n, i)) == Load(s'.mem, TableAt(s.mem, root, n), i) / 0x1000
          && (OpenDir(Resolve(s.mem, root, n)) ==> OpenDir(Resolve(s'.mem, root, In(n, i)))))
  }

  /** Same frames in use, same free list, same places holding tables. */
  ghost predicate SameShape(s: Hal, s': Hal, root: nat) {
    && Used(s') == Used(s) && FreeList(s') == FreeList(s)
    && forall p :: IsDir(s'.mem, root, p) <==> IsDir(s.mem, root, p)
  }

  lemma StepAbsent(s: Hal, root: nat, n: Path, i: Index)
    requires Sound(s, root) && IsDir(s.mem, root, n) && Depth(n) <= 2
    requires !Present(Load(s.mem, TableAt(s.mem, root, n), i)) && Alloc(s).1 != 0
    ensures CanLinkState(s, root, n, i, Zeros())
    ensures WalkStep(s, TableAt(s.mem, root, n), i, ShiftAt(Depth(n)), true)
      == (LinkState(s, root, n, i, Zeros()), true)
  {
    AbsentShows(s.mem, root, n, i);
    AbsentStep(s, root, n, i);
    hide Alloc, PmmOk, Used, TreeOk, LeafCarriesPolicy, Or64, Present, WalkStep, LinkState, OnlyLeaves, Shows, Sound;
  }

  lemma AbsentStep(s: Hal, root: nat, n: Path, i: Index)
    requires PmmOk(s) && IsDir(s.mem, root, n) && Depth(n) <= 2
    requires !Present(Load(s.mem, TableAt(s.mem, root, n), i)) && Alloc(s).1 != 0
    ensures WalkStep(s, TableAt(s.mem, root, n), i, ShiftAt(Depth(n)), true)
      == (LinkState(s, root, n, i, Zeros()), true)
  {
    AllocSpec(s);
    hide Alloc, PmmOk, Used, Or64, Resolve, Present, Load;
    assert StoreFrame(Alloc(s).0.mem, Alloc(s).1 / 0x1000, Zeros()) == Alloc(s).0.mem;
  }

  lemma AbsentShows(m: Memory, root: nat, n: Path, i: Index)
    requires IsDir(m, root, n) && !Present(Load(m, TableAt(m, root, n), i))
    ensures !Resolve(m, root, In(n, i)).Dir? && OnlyLeaves(Depth(n) + 2, Zeros()) && Shows(m, root, n, i, Zeros())
  {
    assert Resolve(m, root, In(n, i)) == Fault;
    hide Resolve;
  }

  /** A split shows what the large page showed. */
  lemma SplitShows(s: Hal, root: nat, n: Path, i: Index, e: Word)
    requires Sound(s, root) && IsDir(s.mem, root, n) && Depth(n) <= 2
    requires e == Load(s.mem, TableAt(s.mem, root, n), i) && Present(e) && LargePage(e)
    ensures var content := SplitFrame(e, ShiftAt(Depth(n)));
      && Depth(n) >= 1
      && !Resolve(s.mem, root, In(n, i)).Dir?
      && OnlyLeaves(Depth(n) + 2, content)
      && Shows(s.mem, root, n, i, content)
  {
    hide SplitEntry, PmmOk, Used, LeafCarriesPolicy;
    var v := Resolve(s.mem, root, n);
    var content := SplitFrame(e, ShiftAt(Depth(n)));
    assert EntryOk(Depth(n) + 1, e);
    assert Resolve(s.mem, root, In(n, i)) == EntryView(Depth(n) + 1, e, v.wr, v.user, v.nx);
    SplitLeaves(e, Depth(n));
    hide Resolve, TreeOk;
    forall j: Index
      ensures EntryView(Depth(n) + 2, content[j], v.wr, v.user, v.nx)
        == ChildView(s.mem, Resolve(s.mem, root, In(n, i)), Depth(n) + 2, j)
    {
      SplitView(e, Depth(n) + 1, j, v.wr, v.user, v.nx);
    }
  }

  lemma SplitLeaves(e: Word, depth: nat)
    requires Present(e) && LargePage(e) && 1 <= depth <= 2
    ensures OnlyLeaves(depth + 2, SplitFrame(e, ShiftAt(depth)))
  {
    hide SplitEntry;
    forall j: Index | depth == 1
      ensures LargePage(SplitFrame(e, ShiftAt(depth))[j])
    {
      Split1G(e, j);
    }
  }

  lemma StepSplit(s: Hal, root: nat, n: Path, i: Index)
    requires Sound(s, root) && IsDir(s.mem, root, n) && Depth(n) <= 2 && Alloc(s).1 != 0
    requires var e := Load(s.mem, TableAt(s.mem, root, n), i); Present(e) && LargePage(e)
    ensures var content := SplitFrame(Load(s.mem, TableAt(s.mem, root, n), i), ShiftAt(Depth(n)));
      && CanLinkState(s, root, n, i, content)
      && WalkStep(s, TableAt(s.mem, root, n), i, ShiftAt(Depth(n)), true) == (LinkState(s, root, n, i, content), true)
  {
    AllocSpec(s);
    TableAtUsed(s, root, n);
    var t := TableAt(s.mem, root, n);
    var e := Load(s.mem, t, i);
    SplitShows(s, root, n, i, e);
    hide SplitFrame, Alloc, PmmOk, Used, TreeOk, LeafCarriesPolicy, Or64, OnlyLeaves, Shows, Resolve;
    assert Load(Alloc(s).0.mem, t, i) == e;
  }

  /** Linking as one level of the walk. */
  lemma LinkIsStep(s: Hal, root: nat, n: Path, i: Index, content: Frame)
    requires CanLinkState(s, root, n, i, content)
    ensures StepDone(s, LinkState(s, root, n, i, content), root, n, i, true, true)
  {
    LinkStateEvolves(s, root, n, i, content);
    LinkStateChild(s, root, n, i, content);
    AllocSpec(s);
    hide LinkState, Alloc, PmmOk, Used, TreeOk, LeafCarriesPolicy, OnlyLeaves, Shows, Resolve, Evolves, FreeList;
  }

  lemma StepOpenFacts(s: Hal, root: nat, n: Path, i: Index, e: Word, e': Word)
    requires Sound(s, root) && IsDir(s.mem, root, n) && Depth(n) <= 2
    requires e == Load(s.mem, TableAt(s.mem, root, n), i) && e' == Or64(e, 7) && Present(e) && !LargePage(e)
    ensures CanOpen(s.mem, root, Used(s), n, i, e')
    ensures FrameOf(e') == e' / 0x1000
  {
    hide PmmOk, Used, LeafCarriesPolicy, Or64;
    assert EntryOk(Depth(n) + 1, e);
    OpenEntry(e);
  }

  lemma StepOpen(s: Hal, root: nat, n: Path, i: Index, alloc: bool)
    requires Sound(s, root) && IsDir(s.mem, root, n) && Depth(n) <= 2
    requires var e := Load(s.mem, TableAt(s.mem, root, n), i); Present(e) && !LargePage(e)
    ensures var (s', ok) := WalkStep(s, TableAt(s.mem, root, n), i, ShiftAt(Depth(n)), alloc);
      ok && StepDone(s, s', root, n, i, alloc, ok)
  {
    var t := TableAt(s.mem, root, n);
    var e := Load(s.mem, t, i);
    var e' := Or64(e, 7);
    TableAtUsed(s, root, n);
    OpenStateEvolves(s, root, n, i, e, e');
    hide Or64, Sound, Present, LargePage, FrameOf, Resolve, Evolves, SameShape;
    assert Load(Store(s.mem, t, i, e'), t, i) == e';
  }

  /** Writing a table frame so that the tree keeps its tables. */
  lemma StoreEvolves(s: Hal, root: nat, t: nat, i: Index, e: Word, pages: set<Path>)
    requires Sound(s, root) && t in Tables(s.mem, root) && t in Used(s) && t < |s.mem|
    requires var m' := Store(s.mem, t, i, e);
      && TreeOk(m', root, Used(s)) && LeafCarriesPolicy(m', root) && Tables(m', root) == Tables(s.mem, root)
      && SamePages(s.mem, m', root, pages) && DirsKept(s.mem, m', root)
    ensures var s' := s.(mem := Store(s.mem, t, i, e));
      Evolves(s, s', root, pages, {}) && Used(s') == Used(s) && FreeList(s') == FreeList(s)
  {
    hide Tables, TreeOk, LeafCarriesPolicy, SamePages, DirsKept, Used, PmmOk, FreeList, Load;
    StoreSpec(s, t, s.mem[t][i := e]);
    TableNotForeign(s, root, t);
    assert Accounted(s, s.(mem := Store(s.mem, t, i, e)), root, {});
  }

  lemma TableNotForeign(s: Hal, root: nat, t: nat)
    requires PmmOk(s) && t in Tables(s.mem, root) && t in Used(s)
    ensures !Foreign(s, root, t)
  {
    hide Tables, FreeList;
  }

  lemma OpenStateEvolves(s: Hal, root: nat, n: Path, i: Index, e: Word, e': Word)
    requires Sound(s, root) && IsDir(s.mem, root, n) && Depth(n) <= 2
    requires e == Load(s.mem, TableAt(s.mem, root, n), i) && e' == Or64(e, 7) && Present(e) && !LargePage(e)
    ensures var s' := s.(mem := Store(s.mem, TableAt(s.mem, root, n), i, e'));
      && Evolves(s, s', root, {}, {}) && SameShape(s, s', root)
      && IsDir(s.mem, root, In(n, i)) && IsDir(s'.mem, root, In(n, i))
      && TableAt(s'.mem, root, In(n, i)) == e' / 0x1000
      && (OpenDir(Resolve(s.mem, root, n)) ==> OpenDir(Resolve(s'.mem, root, In(n, i))))
  {
    StepOpenFacts(s, root, n, i, e, e');
    TableAtUsed(s, root, n);
    hide Or64, PmmOk, Used, TreeOk, Present, LargePage, FrameOf, EntryView, Tables, FreeList, LeafCarriesPolicy, Load,
      Resolve, Evolves, IsDir, Store;
    var t := TableAt(s.mem, root, n);
    var s' := s.(mem := Store(s.mem, t, i, e'));
    OpenKeeps(s.mem, root, Used(s), n, i, e');
    OpenChild(s.mem, root, Used(s), n, i, e');
    OpenKeepsPolicy(s.mem, s'.mem, root);
    assert DirsKept(s.mem, s'.mem, root);
    StoreEvolves(s, root, t, i, e', {});
    ChildOpen(s.mem, s'.mem, root, n, i, e');
  }

  lemma ChildOpen(m: Memory, m': Memory, root: nat, n: Path, i: Index, e: Word)
    requires IsDir(m, root, n) && Depth(n) <= 2 && FrameOf(e) == e / 0x1000
    requires Resolve(m', root, In(n, i)) == Resolve(m, root, n).(table := FrameOf(e))
    ensures IsDir(m', root, In(n, i)) && TableAt(m', root, In(n, i)) == e / 0x1000
    ensures OpenDir(Resolve(m, root, n)) ==> OpenDir(Resolve(m', root, In(n, i)))
  {
    hide FrameOf, Resolve;
  }

  lemma OpenKeepsPolicy(m: Memory, m': Memory, root: nat)
    requires LeafCarriesPolicy(m, root)
    requires forall p :: Depth(p) == 4 ==> Resolve(m', root, p) == Resolve(m, root, p)
    ensures LeafCarriesPolicy(m', root) && SamePages(m, m', root, {})
  {
    hide Resolve;
  }

  /** Absent or large entries stop a walk that does not allocate. */
  lemma ChildNotDir(m: Memory, root: nat, n: Path, i: Index)
    requires IsDir(m, root, n)
    requires var e := Load(m, TableAt(m, root, n), i); !Present(e) || LargePage(e)
    ensures !IsDir(m, root, In(n, i))
  {
  }

  /** A step that links a table. */
  lemma StepLink(s: Hal, root: nat, n: Path, i: Index)
    requires Sound(s, root) && IsDir(s.mem, root, n) && Depth(n) <= 2 && Alloc(s).1 != 0
    requires var e := Load(s.mem, TableAt(s.mem, root, n), i); !Present(e) || LargePage(e)
    ensures var (s', ok) := WalkStep(s, TableAt(s.mem, root, n), i, ShiftAt(Depth(n)), true);
      ok && StepDone(s, s', root, n, i, true, true)
  {
    hide Sound, StepDone, WalkStep, Alloc, LargePage, Resolve, LinkState, CanLinkState;
    var e := Load(s.mem, TableAt(s.mem, root, n), i);
    if Present(e) {
      StepSplit(s, root, n, i);
      LinkIsStep(s, root, n, i, SplitFrame(e, ShiftAt(Depth(n))));
    } else {
      StepAbsent(s, root, n, i);
      LinkIsStep(s, root, n, i, Zeros());
    }
  }

  /** A step that stops. */
  lemma StepStop(s: Hal, root: nat, n: Path, i: Index, alloc: bool)
    requires Sound(s, root) && IsDir(s.mem, root, n) && !IsDir(s.mem, root, In(n, i))
    requires alloc ==> Alloc(s).1 == 0
    ensures StepDone(s, s, root, n, i, alloc, false)
  {
    EvolvesRefl(s, root);
    AllocSpec(s);
    hide PmmOk, Used, TreeOk, LeafCarriesPolicy, Resolve, Evolves, FreeList, Alloc;
  }

  lemma WalkStepSpec(s: Hal, root: nat, n: Path, i: Index, alloc: bool)
    requires Sound(s, root) && IsDir(s.mem, root, n) && Depth(n) <= 2
    ensures var (s', ok) := WalkStep(s, TableAt(s.mem, root, n), i, ShiftAt(Depth(n)), alloc);
      StepDone(s, s', root, n, i, alloc, ok)
  {
    var e := Load(s.mem, TableAt(s.mem, root, n), i);
    if Present(e) && !LargePage(e) {
      StepOpen(s, root, n, i, alloc);
    } else if alloc && Alloc(s).1 != 0 {
      StepLink(s, root, n, i);
    } else {
      ChildNotDir(s.mem, root, n, i);
      StepStop(s, root, n, i, alloc);
      AllocSpec(s);
      hide Sound, StepDone, Present, LargePage, Resolve, Alloc, PmmOk;
    }
  }

  // ---------------------------------------------------------------- the walk

  /** The place a virtual address passes through at the given depth. */
  function PlaceAt(va: Word, depth: nat): (n: Path)
    requires depth <= 3
    ensures Depth(n) == depth
  {
    if depth == 0 then Top else In(PlaceAt(va, depth - 1), IndexAt(va, ShiftAt(depth - 1)))
  }

  lemma PlaceIsParent(va: Word)
    ensures PathOf(va) == In(PlaceAt(va, 3), IndexAt(va, 12))
  {
    assert PlaceAt(va, 3) == In(PlaceAt(va, 2), IndexAt(va, 21));
    assert PlaceAt(va, 2) == In(PlaceAt(va, 1), IndexAt(va, 30));
    assert PlaceAt(va, 1) == In(PlaceAt(va, 0), IndexAt(va, 39));
  }

  /** What the walk promises. */
  ghost predicate WalkDone(s: Hal, s': Hal, root: nat, va: Word, alloc: bool, slot: Slot) {
    && Evolves(s, s', root, {}, {})
    && (alloc && slot.NoSlot? ==> Exhausted(s'))
    && (!alloc ==> (slot.At? <==> IsDir(s.mem, root, PlaceAt(va, 3))) && SameShape(s, s', root))
    && (slot.At? ==>
          && IsDir(s'.mem, root, PlaceAt(va, 3))
          && slot == At(TableAt(s'.mem, root, PlaceAt(va, 3)), IndexAt(va, 12))
          && OpenDir(Resolve(s'.mem, root, PlaceAt(va, 3))))
  }

  lemma ParentIsDir(m: Memory, root: nat, n: Path)
    requires n.In? && IsDir(m, root, n)
    ensures IsDir(m, root, n.parent)
  {
  }

  lemma AncestorIsDir(m: Memory, root: nat, va: Word, depth: nat)
    requires depth <= 2 && IsDir(m, root, PlaceAt(va, 3))
    ensures IsDir(m, root, PlaceAt(va, depth + 1))
  {
    assert PlaceAt(va, 3) == In(PlaceAt(va, 2), IndexAt(va, 21));
    assert PlaceAt(va, 2) == In(PlaceAt(va, 1), IndexAt(va, 30));
    ParentIsDir(m, root, PlaceAt(va, 3));
    ParentIsDir(m, root, PlaceAt(va, 2));
  }

  lemma {:induction false} WalkFromSpec(s: Hal, root: nat, va: Word, depth: nat, alloc: bool)
    requires Sound(s, root) && depth <= 3 && IsDir(s.mem, root, PlaceAt(va, depth))
    requires OpenDir(Resolve(s.mem, root, PlaceAt(va, depth)))
    ensures var (s', slot) := WalkFrom(s, TableAt(s.mem, root, PlaceAt(va, depth)), va, ShiftAt(depth), alloc);
      WalkDone(s, s', root, va, alloc, slot)
    decreases 3 - depth
  {
    hide WalkStep, PmmOk, TreeOk, Exhausted, LeafCarriesPolicy, Resolve, Used, Foreign, SamePages, Accounted;
    var n := PlaceAt(va, depth);
    var t := TableAt(s.mem, root, n);
    EvolvesRefl(s, root);
    if depth < 3 {
      var i := IndexAt(va, ShiftAt(depth));
      var (s1, ok) := WalkStep(s, t, i, ShiftAt(depth), alloc);
      WalkStepSpec(s, root, n, i, alloc);
      assert In(n, i) == PlaceAt(va, depth + 1);
      if ok {
        WalkFromSpec(s1, root, va, depth + 1, alloc);
        var (s', slot) := WalkFrom(s1, TableAt(s1.mem, root, In(n, i)), va, ShiftAt(depth + 1), alloc);
        EvolvesThen(s, s1, s', root, {}, {});
      } else if !alloc && IsDir(s.mem, root, PlaceAt(va, 3)) {
        AncestorIsDir(s.mem, root, va, depth);
      }
    }
  }

  /** mm_walk_page: whatever it meets, no page changes its translation, and every frame it takes is linked, also
      when it runs out half way.  A walk that does not allocate succeeds exactly when the last-level table is there. */
  lemma WalkSpec(s: Hal, cr3: Word, va: Word, alloc: bool)
    requires cr3 / 0x1000 != 0 && Sound(s, cr3 / 0x1000)
    ensures var (s', slot) := Walk(s, cr3, va, alloc);
      WalkDone(s, s', cr3 / 0x1000, va, alloc, slot)
  {
    assert PlaceAt(va, 0) == Top;
    WalkFromSpec(s, cr3 / 0x1000, va, 0, alloc);
  }

  // ---------------------------------------------------------------- map and unmap

  /** Writing a last-level slot: that page shows the entry, nothing else changes. */
  lemma SlotEvolves(s: Hal, root: nat, va: Word, e: Word)
    requires Sound(s, root) && IsDir(s.mem, root, PlaceAt(va, 3)) && OpenDir(Resolve(s.mem, root, PlaceAt(va, 3)))
    ensures var s' := s.(mem := Store(s.mem, TableAt(s.mem, root, PlaceAt(va, 3)), IndexAt(va, 12), e));
      && Evolves(s, s', root, {PathOf(va)}, {})
      && Resolve(s'.mem, root, PathOf(va)) == EntryView(4, e, true, true, false)
      && SameShape(s, s', root)
  {
    var n := PlaceAt(va, 3);
    var i := IndexAt(va, 12);
    var t := TableAt(s.mem, root, n);
    var s' := s.(mem := Store(s.mem, t, i, e));
    PlaceIsParent(va);
    TableAtUsed(s, root, n);
    hide Resolve, TreeOk, Tables, Used, PmmOk, PathOf, PlaceAt, IndexAt, FreeList, EntryView, Evolves, Store, IsDir,
      Depth;
    WriteSlot(s.mem, root, Used(s), n, i, e);
    SlotPolicy(s.mem, s'.mem, root, PathOf(va), e);
    assert DirsKept(s.mem, s'.mem, root);
    StoreEvolves(s, root, t, i, e, {PathOf(va)});
  }

  lemma SlotPolicy(m: Memory, m': Memory, root: nat, page: Path, e: Word)
    requires LeafCarriesPolicy(m, root) && Resolve(m', root, page) == EntryView(4, e, true, true, false)
    requires forall p :: Depth(p) == 4 && p != page ==> Resolve(m', root, p) == Resolve(m, root, p)
    ensures LeafCarriesPolicy(m', root) && SamePages(m, m', root, {page})
  {
    hide Resolve;
    forall p | Depth(p) == 4
      ensures PolicyOk(Resolve(m', root, p))
    {
      assert PolicyOk(Resolve(m, root, p));
    }
  }

  /** mm_map_page_in.  It fails without touching any page's translation, or the page shows exactly the requested
      frame and policy and every other page translates as before. */
  lemma MapSpec(s: Hal, cr3: Word, va: Word, pa: Word, flags: Word)
    requires cr3 / 0x1000 != 0 && Sound(s, cr3 / 0x1000) && pa < 0x10_0000_0000_0000
    ensures var root := cr3 / 0x1000;
      var (s', status) := MapPage(s, cr3, va, pa, flags);
      && Evolves(s, s', root, if status == Success then {PathOf(va)} else {}, {})
      && (status == Success || status == InvalidData)
      && (status != Success ==> pa == 0 || pa % 0x1000 != 0 || Exhausted(s'))
      && (pa == 0 || pa % 0x1000 != 0 ==> status == InvalidData && s' == s)
      && (status == Success ==>
            && pa != 0 && pa % 0x1000 == 0
            && Resolve(s'.mem, root, PathOf(va)) == MappedView(pa, flags))
  {
    var root := cr3 / 0x1000;
    hide Evolves, Resolve, Exhausted, Walk, PathOf, PlaceAt, LeafEntry, SameShape, Sound;
    EvolvesRefl(s, root);
    if pa != 0 && pa % 0x1000 == 0 {
      var (s1, slot) := Walk(s, cr3, va, true);
      WalkSpec(s, cr3, va, true);
      if slot.At? {
        EvolvesSound(s, s1, root, {}, {});
        SlotEvolves(s1, root, va, LeafEntry(pa, flags));
        LeafEntrySpec(pa, flags);
        EvolvesThen(s, s1, MapPage(s, cr3, va, pa, flags).0, root, {PathOf(va)}, {});
      }
    }
  }

  /** Without a root table nothing is mapped, unmapped or changed. */
  lemma NoRoot(s: Hal, va: Word, pa: Word, flags: Word)
    ensures MapPage(s, 0, va, pa, flags) == (s, InvalidData) && UnmapPage(s, 0, va) == (s, 0)
  {
    hide WalkFrom, LeafEntry, Store, Load;
  }

  lemma EvolvesSound(s: Hal, s': Hal, root: nat, pages: set<Path>, held: set<nat>)
    requires Evolves(s, s', root, pages, held)
    ensures Sound(s, root) && Sound(s', root) && s'.base == s.base && s'.end == s.end && |s'.mem| == |s.mem|
    ensures SamePages(s.mem, s'.mem, root, pages)
  {
  }

  /** The view of a page mapped to pa with the given flags. */
  function MappedView(pa: Word, flags: Word): View {
    if flags / 2 % 2 == 0 then Fault
    else
      var wr, user, nx := flags / 4 % 2 == 1, flags / 8 % 2 == 1, flags / 0x10 % 2 == 1;
      Leaf(pa / 0x1000, wr, user, nx, Attr(wr, user, flags / 0x40 % 2 == 1, flags / 0x20 % 2 == 1, false, nx))
  }

  /** mm_unmap_page.  Only a page held by a last-level table is unmapped; its frame is returned.  Otherwise the
      result is 0 and no page changes its translation. */
  lemma UnmapSpec(s: Hal, cr3: Word, va: Word)
    requires cr3 / 0x1000 != 0 && Sound(s, cr3 / 0x1000)
    ensures var root := cr3 / 0x1000;
      var (s', frame) := UnmapPage(s, cr3, va);
      var v := Resolve(s.mem, root, PathOf(va));
      && SameShape(s, s', root)
      && if IsDir(s.mem, root, PlaceAt(va, 3)) && v.Leaf? then
           && frame == v.frame * 0x1000
           && Evolves(s, s', root, {PathOf(va)}, {})
           && Resolve(s'.mem, root, PathOf(va)) == Fault
         else
           frame == 0 && Evolves(s, s', root, {}, {})
  {
    var root := cr3 / 0x1000;
    var (s1, slot) := Walk(s, cr3, va, false);
    WalkSpec(s, cr3, va, false);
    if slot.At? {
      UnmapSlot(s, s1, root, va, slot);
    }
  }

  lemma UnmapSlot(s: Hal, s1: Hal, root: nat, va: Word, slot: Slot)
    requires Sound(s, root) && slot.At? && WalkDone(s, s1, root, va, false, slot)
    ensures var e := Load(s1.mem, slot.table, slot.idx);
      && Resolve(s.mem, root, PathOf(va)) == EntryView(4, e, true, true, false)
      && var s' := s1.(mem := Store(s1.mem, slot.table, slot.idx, 0));
         && Evolves(s, s', root, {PathOf(va)}, {})
         && Resolve(s'.mem, root, PathOf(va)) == Fault
         && SameShape(s, s', root)
  {
    hide Evolves, Resolve, Exhausted, Walk, PathOf, PlaceAt, Sound, IsDir, TableAt, OpenDir, EntryView, Load, Store,
      IndexAt, SameShape, SamePages;
    PageEntry(s1.mem, root, va);
    EvolvesSound(s, s1, root, {}, {});
    SameResolve(s, s1, root, va);
    SameShapeThen(s, s1, s1.(mem := Store(s1.mem, slot.table, slot.idx, 0)), root);
    SlotEvolves(s1, root, va, 0);
    EvolvesThen(s, s1, s1.(mem := Store(s1.mem, slot.table, slot.idx, 0)), root, {PathOf(va)}, {});
    AbsentView();
  }

  lemma AbsentView()
    ensures EntryView(4, 0, true, true, false) == Fault
  {
  }

  lemma SameResolve(s: Hal, s1: Hal, root: nat, va: Word)
    requires Evolves(s, s1, root, {}, {})
    ensures Resolve(s1.mem, root, PathOf(va)) == Resolve(s.mem, root, PathOf(va))
  {
    hide Resolve, Sound, Accounted, Foreign, DirsKept;
    PathDepth(va);
    hide PathOf;
  }

  lemma PathDepth(va: Word)
    ensures Depth(PathOf(va)) == 4
  {
    PlaceIsParent(va);
    hide PathOf, PlaceAt;
  }

  /** A page's view is what its slot says. */
  lemma PageEntry(m: Memory, root: nat, va: Word)
    requires IsDir(m, root, PlaceAt(va, 3)) && OpenDir(Resolve(m, root, PlaceAt(va, 3)))
    ensures Resolve(m, root, PathOf(va))
         == EntryView(4, Load(m, TableAt(m, root, PlaceAt(va, 3)), IndexAt(va, 12)), true, true, false)
  {
    PlaceIsParent(va);
    hide PathOf, PlaceAt, IndexAt, EntryView, Load;
  }

  lemma SameShapeThen(s: Hal, s1: Hal, s2: Hal, root: nat)
    requires SameShape(s, s1, root)
    ensures SameShape(s1, s2, root) ==> SameShape(s, s2, root)
  {
    hide IsDir, Used, FreeList;
  }
}
