/** Software translation agrees with the processor's, and map, unmap and translate are inverse to each other. */
module Translation {
  import opened Words
  import opened PhysicalMemory
  import opened FrameAllocator
  import opened PageTables
  import opened Entries
  import opened PagingManager
  import opened PagingProofs

  /** The four places on the way to a page. */
  lemma Places(va: Word)
    ensures PlaceAt(va, 1) == In(Top, IndexAt(va, 39))
    ensures PlaceAt(va, 2) == In(PlaceAt(va, 1), IndexAt(va, 30))
    ensures PlaceAt(va, 3) == In(PlaceAt(va, 2), IndexAt(va, 21))
    ensures PathOf(va) == In(PlaceAt(va, 3), IndexAt(va, 12))
    ensures PlaceAt(va, 0) == Top
  {
    PlaceIsParent(va);
    assert PlaceAt(va, 1) == In(PlaceAt(va, 0), IndexAt(va, 39));
  }

  /** An interior entry's masked and unmasked targets coincide. */
  lemma InteriorTarget(e: Word)
    requires e < 0x10_0000_0000_0000
    ensures FrameOf(e) == e / 0x1000
  {
    DivDiv(e, 0x1000, 0x100_0000_0000);
    Euclid(e / 0x1000, 0x100_0000_0000);
    DivIs(e, 0x10_0000_0000_0000, 0, e);
  }

  /** The address inside a large page. */
  lemma Offsets(va: Word)
    ensures va % 0x20_0000 == IndexAt(va, 12) * 0x1000 + va % 0x1000
    ensures va % 0x4000_0000 == IndexAt(va, 21) * 0x20_0000 + IndexAt(va, 12) * 0x1000 + va % 0x1000
  {
    DivDiv(va, 0x1000, 0x200);
    DivDiv(va, 0x20_0000, 0x200);
    Euclid(va, 0x1000);
    Euclid(va / 0x1000, 0x200);
    Euclid(va / 0x20_0000, 0x200);
    DivIs(va, 0x20_0000, va / 0x20_0000, IndexAt(va, 12) * 0x1000 + va % 0x1000);
    DivIs(va, 0x4000_0000, va / 0x4000_0000, IndexAt(va, 21) * 0x20_0000 + IndexAt(va, 12) * 0x1000 + va % 0x1000);
  }

  /** What an entry of a table shows, in the terms the software uses. */
  lemma ReadLevel(m: Memory, root: nat, used: set<nat>, n: Path, i: Index)
    requires TreeOk(m, root, used) && IsDir(m, root, n)
    ensures var e := Load(m, TableAt(m, root, n), i);
      var v := Resolve(m, root, In(n, i));
      && (!Present(e) ==> v.Fault?)
      && (Present(e) && (Depth(n) == 3 || LargePage(e)) ==>
            v.Leaf? && Depth(n) >= 1 && v.frame == LeafFrame(Depth(n) + 1, e))
      && (Present(e) && Depth(n) < 3 && !LargePage(e) ==>
            IsDir(m, root, In(n, i)) && TableAt(m, root, In(n, i)) == e / 0x1000)
  {
    var e := Load(m, TableAt(m, root, n), i);
    assert EntryOk(Depth(n) + 1, e);
    if e < 0x10_0000_0000_0000 { InteriorTarget(e); }
  }

  lemma FaultBelow(m: Memory, root: nat, n: Path, i: Index)
    requires Resolve(m, root, n).Fault?
    ensures Resolve(m, root, In(n, i)).Fault?
  {
  }

  lemma LeafBelow(m: Memory, root: nat, n: Path, i: Index)
    requires Resolve(m, root, n).Leaf?
    ensures var v := Resolve(m, root, n);
      Resolve(m, root, In(n, i)) == v.(frame := v.frame + Scale(Depth(n) + 1, i))
  {
    hide EntryView, Load, Scale;
  }

  /** mm_get_page_addr computes the processor's translation, and returns 0 where there is none. */
  lemma GetPageAddrSpec(s: Hal, cr3: Word, va: Word)
    requires Sound(s, cr3 / 0x1000)
    ensures var v := Resolve(s.mem, cr3 / 0x1000, PathOf(va));
      GetPageAddr(s.mem, cr3, va) == if v.Leaf? then v.frame * 0x1000 + va % 0x1000 else 0
  {
    hide TreeOk, PmmOk, Used, LeafCarriesPolicy, PathOf, PlaceAt, IndexAt, Present, LargePage, FrameOf, EntryView,
      ChildView;
    var m, root, used := s.mem, cr3 / 0x1000, Used(s);
    var n1, n2, n3 := PlaceAt(va, 1), PlaceAt(va, 2), PlaceAt(va, 3);
    var i4, i3, i2, i1 := IndexAt(va, 39), IndexAt(va, 30), IndexAt(va, 21), IndexAt(va, 12);
    Places(va);
    Offsets(va);
    assert IsDir(m, root, Top) && TableAt(m, root, Top) == root;
    hide Resolve;
    ReadLevel(m, root, used, Top, i4);
    if IsDir(m, root, n1) {
      ReadLevel(m, root, used, n1, i3);
      if IsDir(m, root, n2) {
        ReadLevel(m, root, used, n2, i2);
        if IsDir(m, root, n3) {
          ReadLevel(m, root, used, n3, i1);
        } else if Resolve(m, root, n3).Fault? {
          FaultBelow(m, root, n3, i1);
        } else {
          LeafBelow(m, root, n3, i1);
        }
      } else if Resolve(m, root, n2).Fault? {
        FaultBelow(m, root, n2, i2);
        FaultBelow(m, root, n3, i1);
      } else {
        LeafBelow(m, root, n2, i2);
        LeafBelow(m, root, n3, i1);
      }
    } else {
      FaultBelow(m, root, n1, i3);
      FaultBelow(m, root, n2, i2);
      FaultBelow(m, root, n3, i1);
    }
  }

  /** Addresses of the same 4 KiB page, modulo the 48 translated bits, share a place, and only those. */
  lemma PlacesDiffer(va: Word, vb: Word)
    ensures PathOf(va) == PathOf(vb) <==> va / 0x1000 % 0x10_0000_0000 == vb / 0x1000 % 0x10_0000_0000
  {
    PathOfPage(va);
    PathOfPage(vb);
    if va / 0x1000 % 0x10_0000_0000 == vb / 0x1000 % 0x10_0000_0000 {
      FirstPageInjective(PathOf(va), PathOf(vb));
    }
  }

  function Number(n: Path): nat {
    if n.Top? then 0 else Number(n.parent) * 0x200 + n.idx
  }

  lemma {:induction false} FirstPageIsNumber(n: Path)
    requires Depth(n) <= 4
    ensures FirstPage(n) == Scale(Depth(n), Number(n))
  {
    if n.In? {
      FirstPageIsNumber(n.parent);
    }
  }

  lemma {:induction false} NumberInjective(n: Path, m: Path)
    requires Depth(n) == Depth(m) && Number(n) == Number(m)
    ensures n == m
  {
    if n.In? {
      DivIs(Number(n), 0x200, Number(n.parent), n.idx);
      DivIs(Number(m), 0x200, Number(m.parent), m.idx);
      NumberInjective(n.parent, m.parent);
    }
  }

  lemma FirstPageInjective(n: Path, m: Path)
    requires Depth(n) == Depth(m) <= 4 && FirstPage(n) == FirstPage(m)
    ensures n == m
  {
    FirstPageIsNumber(n);
    FirstPageIsNumber(m);
    NumberInjective(n, m);
  }

  /** After a successful map with Present set, translating any address of the page gives the frame plus the offset,
      and every address of another page translates as before. */
  lemma MapThenTranslate(s: Hal, cr3: Word, va: Word, pa: Word, flags: Word, vb: Word)
    requires cr3 / 0x1000 != 0 && Sound(s, cr3 / 0x1000) && pa < 0x10_0000_0000_0000
    requires MapPage(s, cr3, va, pa, flags).1 == Success && flags / 2 % 2 == 1
    ensures var s' := MapPage(s, cr3, va, pa, flags).0;
      GetPageAddr(s'.mem, cr3, vb) ==
        if va / 0x1000 % 0x10_0000_0000 == vb / 0x1000 % 0x10_0000_0000 then pa + vb % 0x1000
        else GetPageAddr(s.mem, cr3, vb)
  {
    var root := cr3 / 0x1000;
    var s' := MapPage(s, cr3, va, pa, flags).0;
    hide Sound, Evolves, MapPage, GetPageAddr, Resolve, PathOf, Depth;
    MapSpec(s, cr3, va, pa, flags);
    EvolvesSound(s, s', root, {PathOf(va)}, {});
    GetPageAddrSpec(s, cr3, vb);
    GetPageAddrSpec(s', cr3, vb);
    PlacesDiffer(va, vb);
    PathOfPage(vb);
  }

  lemma UnmapAfterMapViews(s: Hal, cr3: Word, va: Word, pa: Word, flags: Word)
    requires cr3 / 0x1000 != 0 && Sound(s, cr3 / 0x1000) && pa < 0x10_0000_0000_0000
    requires MapPage(s, cr3, va, pa, flags).1 == Success && flags / 2 % 2 == 1
    ensures var s1 := MapPage(s, cr3, va, pa, flags).0;
      var (s2, frame) := UnmapPage(s1, cr3, va);
      && frame == pa && Used(s2) == Used(s1)
      && Sound(s2, cr3 / 0x1000)
      && Resolve(s2.mem, cr3 / 0x1000, PathOf(va)) == Fault
      && SamePages(s.mem, s2.mem, cr3 / 0x1000, {PathOf(va)})
  {
    var root := cr3 / 0x1000;
    var s1 := MapPage(s, cr3, va, pa, flags).0;
    hide Sound, Evolves, MapPage, UnmapPage, Resolve, PathOf, PlaceAt, IsDir, Depth, Used;
    MapSpec(s, cr3, va, pa, flags);
    EvolvesSound(s, s1, root, {PathOf(va)}, {});
    MappedIsSmall(s, cr3, va, pa, flags);
    UnmapSpec(s1, cr3, va);
    EvolvesSound(s1, UnmapPage(s1, cr3, va).0, root, {PathOf(va)}, {});
  }

  /** Unmap undoes map: it returns the mapped frame, the page translates to nothing, and every other address
      translates as it did before the map. */
  lemma UnmapAfterMap(s: Hal, cr3: Word, va: Word, pa: Word, flags: Word, vb: Word)
    requires cr3 / 0x1000 != 0 && Sound(s, cr3 / 0x1000) && pa < 0x10_0000_0000_0000
    requires MapPage(s, cr3, va, pa, flags).1 == Success && flags / 2 % 2 == 1
    ensures var s1 := MapPage(s, cr3, va, pa, flags).0;
      var (s2, frame) := UnmapPage(s1, cr3, va);
      && frame == pa
      && Used(s2) == Used(s1)
      && GetPageAddr(s2.mem, cr3, vb) ==
           if va / 0x1000 % 0x10_0000_0000 == vb / 0x1000 % 0x10_0000_0000 then 0 else GetPageAddr(s.mem, cr3, vb)
  {
    var s1 := MapPage(s, cr3, va, pa, flags).0;
    var s2 := UnmapPage(s1, cr3, va).0;
    hide Sound, Evolves, MapPage, UnmapPage, GetPageAddr, Resolve, PathOf, Depth, PlaceAt, IsDir, Used;
    UnmapAfterMapViews(s, cr3, va, pa, flags);
    GetPageAddrSpec(s, cr3, vb);
    GetPageAddrSpec(s2, cr3, vb);
    PlacesDiffer(va, vb);
    PathOfPage(vb);
  }

  /** A mapped page hangs off a last-level table. */
  lemma MappedIsSmall(s: Hal, cr3: Word, va: Word, pa: Word, flags: Word)
    requires cr3 / 0x1000 != 0 && Sound(s, cr3 / 0x1000) && pa < 0x10_0000_0000_0000
    requires MapPage(s, cr3, va, pa, flags).1 == Success
    ensures IsDir(MapPage(s, cr3, va, pa, flags).0.mem, cr3 / 0x1000, PlaceAt(va, 3))
  {
    var root := cr3 / 0x1000;
    hide Evolves, Resolve, Exhausted, Walk, PathOf, PlaceAt, LeafEntry, Sound;
    var (s1, slot) := Walk(s, cr3, va, true);
    WalkSpec(s, cr3, va, true);
    EvolvesSound(s, s1, root, {}, {});
    SlotEvolves(s1, root, va, LeafEntry(pa, flags));
  }
}
