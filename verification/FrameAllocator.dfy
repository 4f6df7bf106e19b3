/** The physical frame allocator: a bump cursor plus a free list threaded through the frames. */
module FrameAllocator {
  import opened Words
  import opened PhysicalMemory

  /** Physical memory and the allocator's static variables, all of them byte addresses or counts. */
  datatype Hal = Hal(
    mem: Memory,
    base: Word,
    cursor: Word,
    end: Word,
    head: Word,
    free: Word,
    used: Word)

  // ---------------------------------------------------------------- operations

  function AlignUp(a: Word): Word {
    var x := Add64(a, 0x1000 - 1);
    x - x % 0x1000
  }

  function AlignDown(a: Word): Word {
    a - a % 0x1000
  }

  /** pmmi_init. */
  function Init(s: Hal, base: Word, size: Word): Hal {
    var start := AlignUp(base);
    var end := AlignDown(Add64(base, size));
    if end <= start then
      s.(cursor := 0, end := 0)
    else
      s.(base := start, cursor := start, end := end, head := 0, free := (end - start) / 0x1000, used := 0)
  }

  /** The common tail of an allocation: zero the frame and adjust the counters. */
  function Take(s: Hal, frame: Word): Hal {
    s.(mem := StoreFrame(s.mem, frame / 0x1000, Zeros()), free := Sub64(s.free, 1), used := Add64(s.used, 1))
  }

  /** pmmi_alloc_frame: the new state and the frame's address, 0 when out of memory. */
  function Alloc(s: Hal): (Hal, Word) {
    if s.head != 0 then
      (Take(s.(head := Load(s.mem, s.head / 0x1000, 0)), s.head), s.head)
    else if s.cursor != 0 && s.cursor < s.end then
      (Take(s.(cursor := Add64(s.cursor, 0x1000)), s.cursor), s.cursor)
    else
      (s, 0)
  }

  /** pmmi_free_frame. */
  function Free(s: Hal, frame: Word): Hal {
    if frame == 0 || frame % 0x1000 != 0 then s
    else if frame < s.base || frame >= s.cursor then s
    else
      s.(mem := Store(s.mem, frame / 0x1000, 0, s.head), head := frame, free := Add64(s.free, 1),
         used := Sub64(s.used, 1))
  }

  // ---------------------------------------------------------------- invariant

  /** The chain of next pointers from `head` runs through exactly the frames of `list` and ends in 0. */
  ghost predicate Chain(mem: Memory, head: Word, list: seq<nat>)
    decreases |list|
  {
    if list == [] then head == 0
    else
      && head == list[0] * 0x1000
      && head != 0
      && Chain(mem, Load(mem, list[0], 0), list[1..])
  }

  ghost predicate Distinct(list: seq<nat>) {
    forall i, j :: 0 <= i < j < |list| ==> list[i] != list[j]
  }

  /** f was handed out at least once: it lies between the region's base and the cursor. */
  predicate InPool(s: Hal, f: nat) {
    s.base <= f * 0x1000 < s.cursor
  }

  ghost predicate IsFreeList(s: Hal, list: seq<nat>) {
    && Chain(s.mem, s.head, list)
    && Distinct(list)
    && (forall i :: 0 <= i < |list| ==> InPool(s, list[i]))
  }

  /** Bounds of the region inside physical memory, which ends below 2^52. */
  predicate RegionOk(s: Hal) {
    && s.base % 0x1000 == 0 && s.cursor % 0x1000 == 0 && s.end % 0x1000 == 0
    && s.base <= s.cursor <= s.end <= |s.mem| * 0x1000 <= 0x10_0000_0000_0000
  }

  /** The allocator's invariant: the intrusive list is an acyclic, duplicate-free chain of frames that were
      handed out before, and the counters are the sizes they stand for. */
  ghost predicate PmmOk(s: Hal) {
    && RegionOk(s)
    && exists list :: IsFreeList(s, list) && CountsOk(s, list)
  }

  ghost predicate CountsOk(s: Hal, list: seq<nat>) {
    && s.free == |list| + (s.end - s.cursor) / 0x1000
    && s.used + |list| == (s.cursor - s.base) / 0x1000
  }

  ghost function FreeList(s: Hal): (list: seq<nat>)
    ensures PmmOk(s) ==> IsFreeList(s, list) && CountsOk(s, list)
  {
    if exists list :: IsFreeList(s, list) && CountsOk(s, list) then
      var list :| IsFreeList(s, list) && CountsOk(s, list);
      list
    else []
  }

  /** The frames that are handed out at present. */
  ghost function Used(s: Hal): set<nat> {
    set f: nat | f < |s.mem| && InPool(s, f) && f !in FreeList(s)
  }

  lemma UsedBounds(s: Hal)
    requires PmmOk(s)
    ensures s.base <= s.end <= |s.mem| * 0x1000 <= 0x10_0000_0000_0000
    ensures s.base % 0x1000 == 0 && s.end % 0x1000 == 0
    ensures forall f :: f in Used(s) ==> f < |s.mem| && s.base <= f * 0x1000 < s.end
  {
  }

  /** The next pointers determine the list. */
  lemma {:induction false} ChainUnique(mem: Memory, head: Word, a: seq<nat>, b: seq<nat>)
    requires Chain(mem, head, a) && Chain(mem, head, b)
    ensures a == b
    decreases |a|
  {
    if a != [] && b != [] {
      ChainUnique(mem, Load(mem, a[0], 0), a[1..], b[1..]);
      assert a == [a[0]] + a[1..] && b == [b[0]] + b[1..];
    }
  }

  lemma FreeListIs(s: Hal, list: seq<nat>)
    requires RegionOk(s) && IsFreeList(s, list) && CountsOk(s, list)
    ensures PmmOk(s) && FreeList(s) == list
  {
    ChainUnique(s.mem, s.head, list, FreeList(s));
  }

  /** A chain only depends on the first words of its own frames. */
  lemma {:induction false} ChainFrame(m: Memory, m': Memory, head: Word, list: seq<nat>)
    requires Chain(m, head, list)
    requires forall i :: 0 <= i < |list| ==> Load(m', list[i], 0) == Load(m, list[i], 0)
    ensures Chain(m', head, list)
    decreases |list|
  {
    if list != [] {
      ChainFrame(m, m', Load(m, list[0], 0), list[1..]);
    }
  }

  // ---------------------------------------------------------------- the operations keep it

  lemma TailDistinct(list: seq<nat>)
    requires Distinct(list) && list != []
    ensures Distinct(list[1..]) && forall i :: 0 <= i < |list| - 1 ==> list[1..][i] != list[0]
  {
    assert forall i :: 0 <= i < |list| - 1 ==> list[1..][i] == list[i + 1];
  }

  /** Popping the free list. */
  lemma PopSpec(s: Hal)
    requires PmmOk(s) && s.head != 0
    ensures var (s', frame) := Alloc(s);
      && PmmOk(s')
      && s.base <= frame < s.cursor && frame % 0x1000 == 0
      && FreeList(s) == [frame / 0x1000] + FreeList(s')
  {
    var list := FreeList(s);
    var (s', frame) := Alloc(s);
    var f, rest := list[0], list[1..];
    assert InPool(s, f) && s.head == f * 0x1000;
    PopChain(s, list);
    PopCounts(s, list);
    FreeListIs(s', rest);
    assert list == [f] + rest;
  }

  lemma PopChain(s: Hal, list: seq<nat>)
    requires RegionOk(s) && IsFreeList(s, list) && s.head != 0
    ensures list != [] && s.head / 0x1000 == list[0]
    ensures IsFreeList(Alloc(s).0, list[1..])
  {
    hide CountsOk;
    var (s', frame) := Alloc(s);
    var f, rest := list[0], list[1..];
    assert InPool(s, f) && s.head == f * 0x1000;
    assert s'.mem == s.mem[f := Zeros()] && s'.head == Load(s.mem, f, 0);
    TailDistinct(list);
    assert forall i :: 0 <= i < |rest| ==> rest[i] == list[i + 1];
    assert forall i :: 0 <= i < |rest| ==> InPool(s', rest[i]);
    ChainFrame(s.mem, s'.mem, s'.head, rest);
  }

  lemma PopCounts(s: Hal, list: seq<nat>)
    requires RegionOk(s) && CountsOk(s, list) && list != [] && s.head != 0
    ensures CountsOk(Alloc(s).0, list[1..]) && RegionOk(Alloc(s).0)
  {
  }

  /** Advancing the cursor. */
  lemma BumpSpec(s: Hal)
    requires PmmOk(s) && s.head == 0 && s.cursor != 0 && s.cursor < s.end
    ensures var (s', frame) := Alloc(s);
      PmmOk(s') && frame == s.cursor && FreeList(s) == FreeList(s') == []
  {
    var s' := Alloc(s).0;
    assert FreeList(s) == [];
    BumpCounts(s);
    assert IsFreeList(s', []);
    FreeListIs(s', []);
  }

  lemma BumpCounts(s: Hal)
    requires RegionOk(s) && CountsOk(s, []) && s.head == 0 && s.cursor != 0 && s.cursor < s.end
    ensures CountsOk(Alloc(s).0, []) && RegionOk(Alloc(s).0)
  {
    var k, e := s.cursor / 0x1000, s.end / 0x1000;
    assert s.cursor == k * 0x1000 && s.end == e * 0x1000;
    BumpIs(s);
    hide Alloc;
  }

  lemma BumpIs(s: Hal)
    requires RegionOk(s) && s.head == 0 && s.cursor != 0 && s.cursor < s.end
    requires 0 < s.free && s.used < 0x1_0000_0000_0000
    ensures var s' := Alloc(s).0;
      && s'.cursor == s.cursor + 0x1000 && s'.free == s.free - 1 && s'.used == s.used + 1
      && s'.base == s.base && s'.end == s.end && |s'.mem| == |s.mem|
  {
  }

  /** When an allocation fails: nothing on the list and nothing above the cursor, or no region at all. */
  lemma AllocFails(s: Hal)
    requires PmmOk(s)
    ensures Alloc(s).1 == 0 <==> s.free == 0 || (FreeList(s) == [] && s.cursor == 0)
  {
    var list := FreeList(s);
    if s.head != 0 {
      assert list != [];
    } else {
      assert list == [];
    }
  }

  /** What an allocation promises: an aligned, zeroed frame nobody held, or nothing at all. */
  lemma AllocSpec(s: Hal)
    requires PmmOk(s)
    ensures var (s', frame) := Alloc(s);
      && PmmOk(s') && s'.base == s.base && s'.end == s.end
      && (frame == 0 ==> s' == s)
      && (frame == 0 <==> s.free == 0 || (FreeList(s) == [] && s.cursor == 0))
      && (frame != 0 ==>
            && frame % 0x1000 == 0
            && s.base <= frame < s.end
            && frame / 0x1000 !in Used(s)
            && Used(s') == Used(s) + {frame / 0x1000}
            && s'.mem == s.mem[frame / 0x1000 := Zeros()])
  {
    var (s', frame) := Alloc(s);
    AllocFails(s);
    if frame != 0 {
      if s.head != 0 {
        PopSpec(s);
      } else {
        BumpSpec(s);
      }
      AllocUsed(s);
    }
  }

  lemma AllocUsed(s: Hal)
    requires PmmOk(s) && Alloc(s).1 != 0 && PmmOk(Alloc(s).0) && RegionOk(s) && RegionOk(Alloc(s).0)
    requires var (s', frame) := Alloc(s);
      && s.base <= frame < s.end && frame % 0x1000 == 0
      && FreeList(s) == (if s.head != 0 then [frame / 0x1000] + FreeList(s') else FreeList(s'))
      && (s.head != 0 ==> frame < s.cursor)
    ensures var (s', frame) := Alloc(s);
      frame / 0x1000 !in Used(s) && Used(s') == Used(s) + {frame / 0x1000}
  {
    hide Chain, CountsOk, PmmOk, FreeList;
    var (s', frame) := Alloc(s);
    var f := frame / 0x1000;
    assert Distinct(FreeList(s));
    assert frame == f * 0x1000;
    if s.head == 0 {
      var k := s.cursor / 0x1000;
      assert s.cursor == k * 0x1000 && s'.cursor == (k + 1) * 0x1000;
    }
    assert forall g :: InPool(s', g) <==> InPool(s, g) || g == f;
    assert f !in FreeList(s') by {
      if s.head != 0 {
        TailDistinct(FreeList(s));
        assert FreeList(s)[1..] == FreeList(s');
      } else {
        assert !InPool(s, f);
      }
    }
    assert Used(s') == Used(s) + {f};
  }

  /** Giving back a frame that is handed out puts it on the free list and changes nothing else. */
  lemma FreeSpec(s: Hal, frame: Word)
    requires PmmOk(s) && frame % 0x1000 == 0 && frame != 0 && frame / 0x1000 in Used(s)
    ensures var s' := Free(s, frame);
      && PmmOk(s') && s'.base == s.base && s'.end == s.end && s'.cursor == s.cursor
      && FreeList(s') == [frame / 0x1000] + FreeList(s)
      && Used(s') == Used(s) - {frame / 0x1000}
      && s'.mem == Store(s.mem, frame / 0x1000, 0, s.head)
  {
    var list := FreeList(s);
    var s' := Free(s, frame);
    var f := frame / 0x1000;
    PushChain(s, frame, list);
    PushCounts(s, frame, list);
    FreeListIs(s', [f] + list);
    assert Used(s') == Used(s) - {f};
  }

  /** Giving back an address changes anything exactly when it is that of a frame handed out before. */
  lemma FreeActs(s: Hal, frame: Word)
    ensures Free(s, frame) != s <==> frame != 0 && frame % 0x1000 == 0 && InPool(s, frame / 0x1000)
  {
    if frame != 0 && frame % 0x1000 == 0 && InPool(s, frame / 0x1000) {
      Successor(s.free);
      assert Free(s, frame).free == Add64(s.free, 1);
    }
  }

  lemma Successor(w: Word)
    ensures Add64(w, 1) != w
  {
    if w + 1 < 0x1_0000_0000_0000_0000 {
      NoWrap(w, 1);
    }
  }

  /** Giving back a frame of the pool keeps the list a list exactly when the frame is in use: a second free ties it into
      a ring. */
  lemma FreeExact(s: Hal, frame: Word)
    requires PmmOk(s) && frame % 0x1000 == 0 && frame != 0 && s.base <= frame < s.cursor
    ensures PmmOk(Free(s, frame)) <==> frame / 0x1000 in Used(s)
  {
    var f := frame / 0x1000;
    if f in Used(s) {
      FreeSpec(s, frame);
    } else {
      var s' := Free(s, frame);
      if PmmOk(s') {
        FreedTwice(s, frame, FreeList(s'));
      }
    }
  }

  /** The list after a second free meets the frame again. */
  lemma FreedTwice(s: Hal, frame: Word, ring: seq<nat>)
    requires PmmOk(s) && frame % 0x1000 == 0 && frame != 0 && s.base <= frame < s.cursor
    requires frame / 0x1000 !in Used(s) && Chain(Free(s, frame).mem, Free(s, frame).head, ring)
    ensures !Distinct(ring)
  {
    var f, list, s' := frame / 0x1000, FreeList(s), Free(s, frame);
    var j :| 0 <= j < |list| && list[j] == f;
    assert list == list[..j] + [f] + list[j + 1..];
    BeforeTwice(list, j, f);
    SecondHead(s, frame, ring);
    ChainMeets(s.mem, s'.mem, s.head, list[..j], f, list[j + 1..], ring[1..]);
    assert ring[1..][j] == ring[j + 1];
  }

  lemma BeforeTwice(list: seq<nat>, j: nat, f: nat)
    requires j < |list| && list[j] == f && Distinct(list)
    ensures f !in list[..j]
  {
  }

  lemma SecondHead(s: Hal, frame: Word, ring: seq<nat>)
    requires RegionOk(s) && frame % 0x1000 == 0 && frame != 0 && s.base <= frame < s.cursor
    requires Chain(Free(s, frame).mem, Free(s, frame).head, ring)
    ensures ring != [] && ring[0] == frame / 0x1000 && Chain(Free(s, frame).mem, s.head, ring[1..])
    ensures forall g :: g != frame / 0x1000 ==> Load(Free(s, frame).mem, g, 0) == Load(s.mem, g, 0)
  {
  }

  /** Two chains from one head meet the frame at which their memories differ at the same place. */
  lemma {:induction false} ChainMeets(m: Memory, m': Memory, head: Word, a: seq<nat>, f: nat, b: seq<nat>, c: seq<nat>)
    requires Chain(m, head, a + [f] + b) && Chain(m', head, c) && f !in a
    requires forall g :: g != f ==> Load(m', g, 0) == Load(m, g, 0)
    ensures |c| > |a| && c[|a|] == f
    decreases |a|
  {
    hide Load;
    if a != [] {
      assert (a + [f] + b)[1..] == a[1..] + [f] + b;
      ChainMeets(m, m', Load(m, a[0], 0), a[1..], f, b, c[1..]);
    }
  }

  /** The free counter after a frame is given back. */
  lemma FreeCounts(s: Hal, frame: Word)
    requires PmmOk(s) && frame % 0x1000 == 0 && frame != 0 && frame / 0x1000 in Used(s)
    ensures Free(s, frame).free == s.free + 1
  {
    FreeSpec(s, frame);
    hide Used, Chain;
  }

  lemma PushChain(s: Hal, frame: Word, list: seq<nat>)
    requires RegionOk(s) && IsFreeList(s, list)
    requires frame % 0x1000 == 0 && frame != 0 && InPool(s, frame / 0x1000) && frame / 0x1000 !in list
    ensures IsFreeList(Free(s, frame), [frame / 0x1000] + list)
  {
    hide CountsOk;
    var s' := Free(s, frame);
    var f := frame / 0x1000;
    assert frame == f * 0x1000;
    assert Load(s'.mem, f, 0) == s.head;
    ChainFrame(s.mem, s'.mem, s.head, list);
    assert ([f] + list)[1..] == list;
  }

  lemma PushCounts(s: Hal, frame: Word, list: seq<nat>)
    requires PmmOk(s) && FreeList(s) == list && frame % 0x1000 == 0 && frame != 0 && frame / 0x1000 in Used(s)
    ensures CountsOk(Free(s, frame), [frame / 0x1000] + list) && RegionOk(Free(s, frame))
  {
    SomeUsed(s, frame / 0x1000);
    hide Chain, Used, FreeList, Distinct;
    assert frame == frame / 0x1000 * 0x1000;
  }

  lemma SomeUsed(s: Hal, f: nat)
    requires PmmOk(s) && f in Used(s)
    ensures s.used > 0 && InPool(s, f)
  {
    UsedCount(s);
    hide PmmOk;
    assert Used(s) != {};
  }

  /** Writing to a frame that is handed out, or lies outside the region, leaves the allocator alone. */
  lemma StoreSpec(s: Hal, f: nat, content: Frame)
    requires PmmOk(s) && f < |s.mem| && (f in Used(s) || !InPool(s, f))
    ensures var s' := s.(mem := s.mem[f := content]);
      && PmmOk(s') && FreeList(s') == FreeList(s) && Used(s') == Used(s)
  {
    var s' := s.(mem := s.mem[f := content]);
    ChainFrame(s.mem, s'.mem, s.head, FreeList(s));
    FreeListIs(s', FreeList(s));
  }

  /** Allocating a frame, filling it, and storing a word in another frame in use. */
  lemma AllocFillStore(s: Hal, t: nat, i: Index, content: Frame, w: Word)
    requires PmmOk(s) && Alloc(s).1 != 0 && t in Used(s) && t < |s.mem|
    ensures var (s1, frame) := Alloc(s);
      var s' := s1.(mem := Store(StoreFrame(s1.mem, frame / 0x1000, content), t, i, w));
      && PmmOk(s') && Used(s') == Used(s) + {frame / 0x1000} && s'.base == s.base && s'.end == s.end
      && frame / 0x1000 < |s.mem| && frame / 0x1000 !in Used(s)
      && s'.mem == Store(s.mem[frame / 0x1000 := content], t, i, w)
  {
    AllocSpec(s);
    UsedBounds(s);
    var (s1, frame) := Alloc(s);
    var f := frame / 0x1000;
    hide PmmOk, Used, Alloc;
    StoreSpec(s1, f, content);
    var s2 := s1.(mem := s1.mem[f := content]);
    StoreSpec(s2, t, s2.mem[t][i := w]);
    assert s1.mem[f := content] == s.mem[f := content];
  }

  function Interval(lo: nat, hi: nat): (r: set<nat>)
    requires lo <= hi
    ensures forall f :: f in r <==> lo <= f < hi
    ensures |r| == hi - lo
  {
    if lo == hi then {} else Interval(lo, hi - 1) + {hi - 1}
  }

  lemma {:induction false} DistinctCount(list: seq<nat>)
    requires Distinct(list)
    ensures |set i | 0 <= i < |list| :: list[i]| == |list|
  {
    if list != [] {
      var rest := list[1..];
      DistinctCount(rest);
      assert forall i :: 0 <= i < |rest| ==> rest[i] == list[i + 1];
      assert forall i :: 0 < i < |list| ==> list[i] == rest[i - 1];
      assert (set i | 0 <= i < |list| :: list[i]) == {list[0]} + (set i | 0 <= i < |rest| :: rest[i]);
      assert list[0] !in (set i | 0 <= i < |rest| :: rest[i]);
    }
  }

  /** The used counter counts the frames handed out. */
  lemma UsedCount(s: Hal)
    requires PmmOk(s)
    ensures s.used == |Used(s)|
    ensures s.free + s.used == (s.end - s.base) / 0x1000
  {
    var list := FreeList(s);
    var lo, hi := s.base / 0x1000, s.cursor / 0x1000;
    DistinctCount(list);
    var all := Interval(lo, hi);
    var free := set i | 0 <= i < |list| :: list[i];
    assert free <= all;
    assert Used(s) == all - free;
    assert |all - free| == |all| - |free|;
  }

  // ---------------------------------------------------------------- from start-up on

  /** The allocator's static variables before pmmi_init. */
  function Reset(mem: Memory): Hal {
    Hal(mem, 0, 0, 0, 0, 0, 0)
  }

  /** Whole frames inside a region that does not wrap. */
  function WholeFrames(base: nat, size: nat): nat {
    var start, end := (base + 0xFFF) / 0x1000, (base + size) / 0x1000;
    if end <= start then 0 else end - start
  }

  /** pmmi_init takes over exactly the whole frames inside the region, none of them in use. */
  lemma InitSpec(mem: Memory, base: Word, size: Word)
    requires base + size <= |mem| * 0x1000 <= 0x10_0000_0000_0000
    ensures var s := Init(Reset(mem), base, size);
      && PmmOk(s) && Used(s) == {} && FreeList(s) == [] && s.mem == mem
      && s.free == WholeFrames(base, size) && s.used == 0
      && (s.free > 0 ==> base <= s.base < base + 0x1000 && s.end <= base + size && s.end == s.base + s.free * 0x1000)
      && (s.free == 0 ==> s.base == s.end == 0)
  {
    var s := Init(Reset(mem), base, size);
    InitShape(mem, base, size);
    hide Init, AlignUp, AlignDown, WholeFrames, Used;
    FreshPool(s);
    NothingUsed(s);
  }

  /** Whatever the allocator did before, pmmi_init over a region with a whole frame in it leaves what it leaves at
      start-up; over a region without one only the frames on the list are left to allocate. */
  lemma InitAnew(s: Hal, base: Word, size: Word)
    requires base + size <= |s.mem| * 0x1000 <= 0x10_0000_0000_0000
    ensures var s' := Init(s, base, size);
      && (WholeFrames(base, size) > 0 ==> s' == Init(Reset(s.mem), base, size))
      && (WholeFrames(base, size) == 0 ==>
            s' == s.(cursor := 0, end := 0) && (Alloc(s').1 != 0 <==> s.head != 0))
  {
    InitBounds(base, size);
    hide AlignUp, AlignDown, Take;
  }

  /** The state pmmi_init leaves. */
  lemma InitShape(mem: Memory, base: Word, size: Word)
    requires base + size <= |mem| * 0x1000 <= 0x10_0000_0000_0000
    ensures var s := Init(Reset(mem), base, size);
      && s.mem == mem && s.used == 0 && s.head == 0 && s.cursor == s.base && s.free == WholeFrames(base, size)
      && s.base % 0x1000 == 0 && s.end == s.base + s.free * 0x1000 && s.end <= |mem| * 0x1000
      && (s.free > 0 ==> base <= s.base < base + 0x1000 && s.end <= base + size)
      && (s.free == 0 ==> s.base == s.end == 0)
  {
    InitBounds(base, size);
    hide AlignUp, AlignDown;
    var a, b := (base + 0xFFF) / 0x1000, (base + size) / 0x1000;
    if a < b {
      DivIs(b * 0x1000 - a * 0x1000, 0x1000, b - a, 0);
    }
  }

  /** A pool none of whose frames has been touched. */
  lemma FreshPool(s: Hal)
    requires s.cursor == s.base && s.head == 0 && s.used == 0 && s.base % 0x1000 == 0
    requires s.end == s.base + s.free * 0x1000 && s.end <= |s.mem| * 0x1000 <= 0x10_0000_0000_0000
    requires s.free == 0 ==> s.base == 0
    ensures PmmOk(s) && FreeList(s) == []
  {
    DivIs(s.end - s.cursor, 0x1000, s.free, 0);
    assert IsFreeList(s, []);
    FreeListIs(s, []);
  }

  lemma NothingUsed(s: Hal)
    requires PmmOk(s) && s.used == 0
    ensures Used(s) == {}
  {
    UsedCount(s);
    hide Used, PmmOk;
    assert |Used(s)| == 0;
  }

  lemma InitBounds(base: Word, size: Word)
    requires base + size <= 0x10_0000_0000_0000
    ensures AlignUp(base) == (base + 0xFFF) / 0x1000 * 0x1000
    ensures AlignDown(Add64(base, size)) == (base + size) / 0x1000 * 0x1000
  {
    NoWrap(base, 0xFFF);
    NoWrap(base, size);
    hide Add64;
    Euclid(base + 0xFFF, 0x1000);
    Euclid(base + size, 0x1000);
  }

  lemma NoWrap(a: nat, b: nat)
    requires a + b < 0x1_0000_0000_0000_0000
    ensures Add64(a, b) == a + b
  {
  }

  /** A call of the allocator's interface. */
  datatype Call = AllocCall | FreeCall(frame: Word)

  function Serve(s: Hal, c: Call): Hal {
    match c
    case AllocCall => Alloc(s).0
    case FreeCall(frame) => Free(s, frame)
  }

  /** Only frames that are handed out may be given back; the allocator does not check for a second free. */
  ghost predicate Legal(s: Hal, calls: seq<Call>)
    decreases |calls|
  {
    calls != [] ==>
      && (calls[0].FreeCall? ==>
            calls[0].frame % 0x1000 == 0 && calls[0].frame != 0 && calls[0].frame / 0x1000 in Used(s))
      && Legal(Serve(s, calls[0]), calls[1..])
  }

  function ServeAll(s: Hal, calls: seq<Call>): Hal
    decreases |calls|
  {
    if calls == [] then s else ServeAll(Serve(s, calls[0]), calls[1..])
  }

  /** Over every legal run the free list stays an acyclic, duplicate-free chain inside the region, and free plus used
      stays the number of frames in the region. */
  lemma {:induction false} RunSpec(s: Hal, calls: seq<Call>)
    requires PmmOk(s) && Legal(s, calls)
    ensures var s' := ServeAll(s, calls);
      && PmmOk(s') && s'.base == s.base && s'.end == s.end && s'.free + s'.used == s.free + s.used
      && s'.used == |Used(s')|
    decreases |calls|
  {
    UsedCount(s);
    if calls != [] {
      match calls[0] {
        case AllocCall => AllocSpec(s);
        case FreeCall(frame) => FreeSpec(s, frame);
      }
      hide PmmOk, Used, Alloc, Free;
      UsedCount(Serve(s, calls[0]));
      RunSpec(Serve(s, calls[0]), calls[1..]);
    }
  }

  /** A frame freed and taken again is the same frame, zeroed. */
  lemma FreeThenAlloc(s: Hal, frame: Word)
    requires PmmOk(s) && frame % 0x1000 == 0 && frame != 0 && frame / 0x1000 in Used(s)
    ensures var (s', again) := Alloc(Free(s, frame));
      again == frame && Used(s') == Used(s) && frame / 0x1000 < |s.mem| && s'.mem == s.mem[frame / 0x1000 := Zeros()]
  {
    FreeSpec(s, frame);
    AllocSpec(Free(s, frame));
    UsedBounds(s);
    hide PmmOk, Used;
    assert Alloc(Free(s, frame)).1 == frame;
    var f := frame / 0x1000;
    assert Store(s.mem, f, 0, s.head)[f := Zeros()] == s.mem[f := Zeros()];
  }
}
