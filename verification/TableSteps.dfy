/** How single writes to page tables change the walk. */
module TableSteps {
  import opened Words
  import opened PhysicalMemory
  import opened PageTables

  /** m and m' hold the same entries in every table, except the entry at place c. */
  ghost predicate AgreeExcept(m: Memory, m': Memory, root: nat, c: Path) {
    forall n, i: Index :: IsDir(m, root, n) && In(n, i) != c ==>
      Load(m', TableAt(m, root, n), i) == Load(m, TableAt(m, root, n), i)
  }

  /** Places not below a changed entry resolve as before. */
  lemma {:induction false} ResolveElsewhere(m: Memory, m': Memory, root: nat, c: Path, n: Path)
    requires AgreeExcept(m, m', root, c) && Depth(n) <= 4 && !Under(n, c)
    ensures Resolve(m', root, n) == Resolve(m, root, n)
  {
    if n.In? {
      ResolveElsewhere(m, m', root, c, n.parent);
      if Resolve(m, root, n.parent).Dir? {
        assert IsDir(m, root, n.parent);
        assert n == In(n.parent, n.idx);
      }
    }
  }

  /** Below a place that is no table, memory does not matter. */
  lemma {:induction false} ResolveBelow(m: Memory, m': Memory, root: nat, c: Path, n: Path)
    requires Under(n, c) && !Resolve(m, root, c).Dir? && Resolve(m', root, c) == Resolve(m, root, c)
    ensures Resolve(m', root, n) == Resolve(m, root, n) && !Resolve(m, root, n).Dir?
  {
    if n != c {
      ResolveBelow(m, m', root, c, n.parent);
    }
  }

  lemma {:induction false} UnderDepth(n: Path, c: Path)
    requires Under(n, c)
    ensures Depth(n) >= Depth(c) && (Depth(n) == Depth(c) ==> n == c)
  {
    if n != c {
      UnderDepth(n.parent, c);
    }
  }

  /** A place strictly below c lies below one of c's children. */
  lemma {:induction false} UnderChild(n: Path, c: Path) returns (j: Index)
    requires Under(n, c) && n != c
    ensures Under(n, In(c, j))
  {
    if n.parent == c {
      j := n.idx;
    } else {
      j := UnderChild(n.parent, c);
    }
  }

  /** Every present entry of a table whose entries sit at `depth` is a leaf. */
  ghost predicate OnlyLeaves(depth: nat, content: Frame) {
    forall j: Index :: Present(content[j]) && depth <= 3 ==> LargePage(content[j]) && 2 <= depth
  }

  /** Rewriting a frame that holds no table changes no walk. */
  lemma WriteElsewhere(m: Memory, root: nat, f: nat, content: Frame)
    requires f < |m| && !IsTable(m, root, f)
    ensures forall n :: Depth(n) <= 4 ==> Resolve(m[f := content], root, n) == Resolve(m, root, n)
    ensures forall n :: IsDir(m[f := content], root, n) <==> IsDir(m, root, n)
    ensures Tables(m[f := content], root) == Tables(m, root)
  {
    var m' := m[f := content];
    forall n | Depth(n) <= 4
      ensures Resolve(m', root, n) == Resolve(m, root, n)
    {
      UnderDepth'(n);
      ResolveElsewhere(m, m', root, In(n, 0), n);
    }
    SameTables(m, m', root);
  }

  lemma UnderDepth'(n: Path)
    ensures !Under(n, In(n, 0))
  {
    if Under(n, In(n, 0)) {
      UnderDepth(n, In(n, 0));
    }
  }

  lemma SameTables(m: Memory, m': Memory, root: nat)
    requires |m| == |m'|
    requires forall n :: Depth(n) <= 3 && (Resolve(m, root, n).Dir? || Resolve(m', root, n).Dir?) ==>
               && Resolve(m, root, n).Dir? && Resolve(m', root, n).Dir?
               && Resolve(m, root, n).table == Resolve(m', root, n).table
    ensures forall n :: IsDir(m', root, n) <==> IsDir(m, root, n)
    ensures Tables(m', root) == Tables(m, root)
  {
    assert forall n :: IsDir(m', root, n) <==> IsDir(m, root, n);
    forall f: nat
      ensures IsTable(m, root, f) <==> IsTable(m', root, f)
    {
      if IsTable(m, root, f) {
        var n :| IsDir(m, root, n) && TableAt(m, root, n) == f;
        assert IsDir(m', root, n) && TableAt(m', root, n) == f;
      }
      if IsTable(m', root, f) {
        var n :| IsDir(m', root, n) && TableAt(m', root, n) == f;
        assert IsDir(m, root, n) && TableAt(m, root, n) == f;
      }
    }
  }

  // ---------------------------------------------------------------- linking a fresh table

  /** Memory after a fresh frame f with the given content is linked at entry i of the table at n. */
  function Linked(m: Memory, root: nat, n: Path, i: Index, f: nat, content: Frame, e: Word): Memory
    requires IsDir(m, root, n) && f < |m|
  {
    Store(m[f := content], TableAt(m, root, n), i, e)
  }

  ghost predicate CanLink(m: Memory, root: nat, used: set<nat>, n: Path, i: Index, f: nat, content: Frame, e: Word) {
    && TreeOk(m, root, used)
    && IsDir(m, root, n) && Depth(n) <= 2
    && !Resolve(m, root, In(n, i)).Dir?
    && f !in used && f < |m|
    && OnlyLeaves(Depth(n) + 2, content)
    && Present(e) && !LargePage(e) && FrameOf(e) == f && e < 0x10_0000_0000_0000
  }

  lemma LinkAgrees(m: Memory, root: nat, used: set<nat>, n: Path, i: Index, f: nat, content: Frame, e: Word)
    requires CanLink(m, root, used, n, i, f, content, e)
    ensures AgreeExcept(m, Linked(m, root, n, i, f, content, e), root, In(n, i))
  {
  }

  lemma LinkLoads(m: Memory, root: nat, used: set<nat>, n: Path, i: Index, f: nat, content: Frame, e: Word)
    requires CanLink(m, root, used, n, i, f, content, e)
    ensures var m' := Linked(m, root, n, i, f, content, e);
      && TableAt(m, root, n) != f
      && Load(m', TableAt(m, root, n), i) == e
      && (forall j: Index :: Load(m', f, j) == content[j])
  {
    assert TableAt(m, root, n) in used;
  }

  lemma LinkView(depth: nat, f: nat, e: Word, wr: bool, user: bool, nx: bool)
    requires Present(e) && !LargePage(e) && FrameOf(e) == f && e < 0x10_0000_0000_0000 && depth <= 3
    ensures EntryView(depth, e, wr, user, nx) == Dir(f, wr && Wr(e), user && User(e), nx)
  {
  }

  lemma LinkElsewhere(m: Memory, root: nat, used: set<nat>, n: Path, i: Index, f: nat, content: Frame, e: Word)
    requires CanLink(m, root, used, n, i, f, content, e)
    ensures var m' := Linked(m, root, n, i, f, content, e);
      forall p :: Depth(p) <= 4 && !Under(p, In(n, i)) ==> Resolve(m', root, p) == Resolve(m, root, p)
  {
    var m' := Linked(m, root, n, i, f, content, e);
    LinkAgrees(m, root, used, n, i, f, content, e);
    hide Linked, CanLink, AgreeExcept, Resolve;
    forall p | Depth(p) <= 4 && !Under(p, In(n, i))
      ensures Resolve(m', root, p) == Resolve(m, root, p)
    {
      ResolveElsewhere(m, m', root, In(n, i), p);
    }
  }

  lemma NotUnderChild(n: Path, i: Index)
    ensures !Under(n, In(n, i))
  {
    if Under(n, In(n, i)) { UnderDepth(n, In(n, i)); }
  }

  /** The walk after linking: the new table at the linked place, its entries below, all else as before. */
  lemma LinkResolves(m: Memory, root: nat, used: set<nat>, n: Path, i: Index, f: nat, content: Frame, e: Word)
    requires CanLink(m, root, used, n, i, f, content, e)
    ensures var m' := Linked(m, root, n, i, f, content, e);
      var c := In(n, i);
      var v := Resolve(m, root, n);
      var d := Dir(f, v.wr && Wr(e), v.user && User(e), v.nx);
      && (forall p :: Depth(p) <= 4 && !Under(p, c) ==> Resolve(m', root, p) == Resolve(m, root, p))
      && Resolve(m', root, c) == d
      && (forall j: Index :: Resolve(m', root, In(c, j)) == EntryView(Depth(c) + 1, content[j], d.wr, d.user, d.nx))
  {
    hide Linked, EntryView, TreeOk, OnlyLeaves, Present, LargePage, FrameOf, Wr, User, AgreeExcept, Under, Load,
      Resolve;
    var m' := Linked(m, root, n, i, f, content, e);
    var v := Resolve(m, root, n);
    LinkElsewhere(m, root, used, n, i, f, content, e);
    NotUnderChild(n, i);
    LinkLoads(m, root, used, n, i, f, content, e);
    LinkView(Depth(n) + 1, f, e, v.wr, v.user, v.nx);
    LinkedBelow(m', root, n, i, f, content, e, v);
  }

  /** What stands at a linked table and below it. */
  lemma LinkedBelow(m: Memory, root: nat, n: Path, i: Index, f: nat, content: Frame, e: Word, v: View)
    requires Resolve(m, root, n) == v && v.Dir? && Load(m, v.table, i) == e
    requires forall j: Index :: Load(m, f, j) == content[j]
    requires var d := Dir(f, v.wr && Wr(e), v.user && User(e), v.nx);
      EntryView(Depth(n) + 1, e, v.wr, v.user, v.nx) == d
    ensures var c := In(n, i);
      var d := Dir(f, v.wr && Wr(e), v.user && User(e), v.nx);
      && Resolve(m, root, c) == d
      && (forall j: Index :: Resolve(m, root, In(c, j)) == EntryView(Depth(c) + 1, content[j], d.wr, d.user, d.nx))
  {
    hide EntryView, Wr, User, Load;
  }

  /** Linking adds exactly one table and keeps the tree. */
  lemma LinkKeepsTree(m: Memory, root: nat, used: set<nat>, n: Path, i: Index, f: nat, content: Frame, e: Word)
    requires CanLink(m, root, used, n, i, f, content, e)
    ensures var m' := Linked(m, root, n, i, f, content, e);
      && TreeOk(m', root, used + {f})
      && Tables(m', root) == Tables(m, root) + {f}
      && (forall p :: IsDir(m', root, p) <==> IsDir(m, root, p) || p == In(n, i))
  {
    var m' := Linked(m, root, n, i, f, content, e);
    var c := In(n, i);
    LinkResolves(m, root, used, n, i, f, content, e);
    forall p | Depth(p) <= 3 && Under(p, c) && p != c
      ensures !Resolve(m', root, p).Dir? && !Resolve(m, root, p).Dir?
    {
      var j := UnderChild(p, c);
      ResolveBelow(m', m', root, In(c, j), p);
      ResolveBelow(m, m, root, c, p);
    }
    forall p
      ensures IsDir(m', root, p) <==> IsDir(m, root, p) || p == c
      ensures IsDir(m', root, p) ==> TableAt(m', root, p) == if p == c then f else TableAt(m, root, p)
    {
    }
    forall p, j: Index | IsDir(m', root, p)
      ensures EntryOk(Depth(p) + 1, Load(m', TableAt(m', root, p), j))
    {
      if p != c && In(p, j) != c {
        LinkAgrees(m, root, used, n, i, f, content, e);
        assert EntryOk(Depth(p) + 1, Load(m, TableAt(m, root, p), j));
      }
    }
    forall g: nat
      ensures IsTable(m', root, g) <==> IsTable(m, root, g) || g == f
    {
      if IsTable(m', root, g) {
        var p :| IsDir(m', root, p) && TableAt(m', root, p) == g;
        if p != c { assert IsDir(m, root, p) && TableAt(m, root, p) == g; }
      }
      if IsTable(m, root, g) {
        var p :| IsDir(m, root, p) && TableAt(m, root, p) == g;
        assert IsDir(m', root, p) && TableAt(m', root, p) == g;
      }
      assert IsDir(m', root, c) && TableAt(m', root, c) == f;
    }
  }

  /** Linking a table whose entries view exactly what was there before changes no page. */
  lemma LinkPages(m: Memory, root: nat, used: set<nat>, n: Path, i: Index, f: nat, content: Frame, e: Word)
    requires CanLink(m, root, used, n, i, f, content, e)
    requires var c := In(n, i);
      var v := Resolve(m, root, n);
      forall j: Index :: EntryView(Depth(c) + 1, content[j], v.wr && Wr(e), v.user && User(e), v.nx)
        == ChildView(m, Resolve(m, root, c), Depth(c) + 1, j)
    ensures var m' := Linked(m, root, n, i, f, content, e);
      forall p :: Depth(p) == 4 ==> Resolve(m', root, p) == Resolve(m, root, p)
  {
    var m' := Linked(m, root, n, i, f, content, e);
    var c := In(n, i);
    LinkResolves(m, root, used, n, i, f, content, e);
    forall p | Depth(p) == 4
      ensures Resolve(m', root, p) == Resolve(m, root, p)
    {
      if Under(p, c) {
        var j := UnderChild(p, c);
        assert Resolve(m', root, In(c, j)) == Resolve(m, root, In(c, j));
        ResolveBelow(m, m', root, In(c, j), p);
      }
    }
  }

  // ---------------------------------------------------------------- opening up an interior entry

  /** v' is v with at most more rights. */
  predicate Opened(v: View, v': View) {
    match v
    case Fault => v'.Fault?
    case Dir(t, wr, user, nx) => v'.Dir? && v'.table == t && (wr ==> v'.wr) && (user ==> v'.user) && v'.nx == nx
    case Leaf(f, wr, user, nx, a) =>
      && v'.Leaf? && v'.frame == f && v'.attr == a && v'.nx == nx
      && (wr ==> v'.wr) && (user ==> v'.user) && (v'.wr ==> a.wr) && (v'.user ==> a.user)
  }

  ghost predicate CanOpen(m: Memory, root: nat, used: set<nat>, n: Path, i: Index, e: Word) {
    && TreeOk(m, root, used)
    && IsDir(m, root, n) && Depth(n) <= 2 && IsDir(m, root, In(n, i))
    && var was := Load(m, TableAt(m, root, n), i);
    && Present(e) && !LargePage(e) && FrameOf(e) == FrameOf(was) && e < 0x10_0000_0000_0000 && Wr(e) && User(e)
  }

  lemma OpenEntryView(depth: nat, was: Word, e: Word, v: View, v': View)
    requires v.Dir? && Opened(v, v') && depth <= 3 && EntryView(depth, was, v.wr, v.user, v.nx).Dir?
    requires EntryOk(depth, was)
    requires Present(e) && !LargePage(e) && FrameOf(e) == FrameOf(was) && e < 0x10_0000_0000_0000 && Wr(e) && User(e)
    ensures Opened(EntryView(depth, was, v.wr, v.user, v.nx), EntryView(depth, e, v'.wr, v'.user, v'.nx))
    ensures var w := EntryView(depth, e, v'.wr, v'.user, v'.nx); w.wr == v'.wr && w.user == v'.user
  {
    assert !Nx(was) && !Nx(e);
  }

  /** Opening an entry only adds rights, everywhere. */
  lemma {:induction false} OpenResolves(m: Memory, root: nat, used: set<nat>, n: Path, i: Index, e: Word, p: Path)
    requires CanOpen(m, root, used, n, i, e) && Depth(p) <= 4
    ensures Opened(Resolve(m, root, p), Resolve(Store(m, TableAt(m, root, n), i, e), root, p))
  {
    if p.In? {
      var t := TableAt(m, root, n);
      var m' := Store(m, t, i, e);
      OpenResolves(m, root, used, n, i, e, p.parent);
      var v, v' := Resolve(m, root, p.parent), Resolve(m', root, p.parent);
      if v.Dir? {
        assert IsDir(m, root, p.parent);
        var was := Load(m, v.table, p.idx);
        if p == In(n, i) {
          assert Load(m', t, i) == e;
          OpenEntryView(Depth(p), was, e, v, v');
        } else {
          assert Load(m', v.table, p.idx) == was;
        }
      }
    }
  }

  /** Opening an entry keeps the tree, and with it every page whose leaf carries the policy. */
  lemma OpenKeeps(m: Memory, root: nat, used: set<nat>, n: Path, i: Index, e: Word)
    requires CanOpen(m, root, used, n, i, e) && LeafCarriesPolicy(m, root)
    ensures var m' := Store(m, TableAt(m, root, n), i, e);
      && TreeOk(m', root, used)
      && Tables(m', root) == Tables(m, root)
      && (forall p :: Depth(p) == 4 ==> Resolve(m', root, p) == Resolve(m, root, p))
      && (forall p :: IsDir(m', root, p) <==> IsDir(m, root, p))
  {
    var t := TableAt(m, root, n);
    var m' := Store(m, t, i, e);
    forall p | Depth(p) <= 4
      ensures Opened(Resolve(m, root, p), Resolve(m', root, p))
    {
      OpenResolves(m, root, used, n, i, e, p);
    }
    SameTables(m, m', root);
    forall p, j: Index | IsDir(m', root, p)
      ensures EntryOk(Depth(p) + 1, Load(m', TableAt(m', root, p), j))
    {
      assert IsDir(m, root, p);
      assert EntryOk(Depth(p) + 1, Load(m, TableAt(m, root, p), j));
    }
    forall p | Depth(p) == 4
      ensures Resolve(m', root, p) == Resolve(m, root, p)
    {
      assert PolicyOk(Resolve(m, root, p));
      assert Opened(Resolve(m, root, p), Resolve(m', root, p));
    }
  }

  /** The opened entry passes on all the rights of its table. */
  lemma OpenChild(m: Memory, root: nat, used: set<nat>, n: Path, i: Index, e: Word)
    requires CanOpen(m, root, used, n, i, e)
    ensures var m' := Store(m, TableAt(m, root, n), i, e);
      && Resolve(m', root, n) == Resolve(m, root, n)
      && Resolve(m', root, In(n, i)) == Resolve(m, root, n).(table := FrameOf(e))
  {
    var t := TableAt(m, root, n);
    var m' := Store(m, t, i, e);
    assert AgreeExcept(m, m', root, In(n, i));
    if Under(n, In(n, i)) { UnderDepth(n, In(n, i)); }
    ResolveElsewhere(m, m', root, In(n, i), n);
    assert Load(m', t, i) == e && !Nx(e);
  }

  // ---------------------------------------------------------------- writing a page's slot

  /** Writing entry i of the last-level table at n gives the page In(n, i) that entry and no other page a change. */
  lemma WriteSlot(m: Memory, root: nat, used: set<nat>, n: Path, i: Index, e: Word)
    requires TreeOk(m, root, used) && IsDir(m, root, n) && Depth(n) == 3
    ensures var m' := Store(m, TableAt(m, root, n), i, e);
      var v := Resolve(m, root, n);
      && TreeOk(m', root, used)
      && Tables(m', root) == Tables(m, root)
      && Resolve(m', root, In(n, i)) == EntryView(4, e, v.wr, v.user, v.nx)
      && (forall p :: Depth(p) <= 4 && p != In(n, i) ==> Resolve(m', root, p) == Resolve(m, root, p))
      && (forall p :: IsDir(m', root, p) <==> IsDir(m, root, p))
  {
    var t := TableAt(m, root, n);
    var m' := Store(m, t, i, e);
    var c := In(n, i);
    forall p | Depth(p) <= 4 && p != c
      ensures Resolve(m', root, p) == Resolve(m, root, p)
    {
      if Under(p, c) { UnderDepth(p, c); }
      ResolveElsewhere(m, m', root, c, p);
    }
    SameTables(m, m', root);
    forall p, j: Index | IsDir(m', root, p)
      ensures EntryOk(Depth(p) + 1, Load(m', TableAt(m', root, p), j))
    {
      assert IsDir(m, root, p);
      assert EntryOk(Depth(p) + 1, Load(m, TableAt(m, root, p), j));
    }
  }
}
