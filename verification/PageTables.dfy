/** AMD64 4-level page tables: entry fields, the walk the processor performs, and the shape the kernel keeps
    them in (Intel 64 SDM Volume 3A, sections 4.5 and 4.6). */
module PageTables {
  import opened Words
  import opened PhysicalMemory

  // ---------------------------------------------------------------- entries

  predicate Present(e: Word) { e % 2 == 1 }

  predicate Wr(e: Word) { e / 2 % 2 == 1 }

  predicate User(e: Word) { e / 4 % 2 == 1 }

  predicate Pwt(e: Word) { e / 8 % 2 == 1 }

  predicate Pcd(e: Word) { e / 0x10 % 2 == 1 }

  predicate LargePage(e: Word) { e / 0x80 % 2 == 1 }

  predicate Global(e: Word) { e / 0x100 % 2 == 1 }

  predicate Nx(e: Word) { e / 0x8000_0000_0000_0000 == 1 }

  /** Frame number in bits 12..51. */
  function FrameOf(e: Word): nat { e / 0x1000 % 0x100_0000_0000 }

  // ---------------------------------------------------------------- places in the tree

  /** A place in the 4-level tree: the indices taken from the root down.  Depth 1 entries live in the PML4,
      depth 4 places are single pages. */
  datatype Path = Top | In(parent: Path, idx: Index)

  function Depth(n: Path): nat {
    if n.Top? then 0 else 1 + Depth(n.parent)
  }

  /** Pages covered by `idx` siblings at the given depth. */
  function Scale(depth: nat, idx: nat): nat {
    if depth == 4 then idx
    else if depth == 3 then 0x200 * idx
    else if depth == 2 then 0x4_0000 * idx
    else 0x800_0000 * idx
  }

  /** The first virtual page number a place covers. */
  function FirstPage(n: Path): nat {
    if n.Top? then 0 else FirstPage(n.parent) + Scale(Depth(n), n.idx)
  }

  /** n is c or lies below it. */
  predicate Under(n: Path, c: Path) {
    n == c || (n.In? && Under(n.parent, c))
  }

  /** The place of the page holding a virtual address. */
  function PathOf(va: nat): Path {
    In(In(In(In(Top, va / 0x80_0000_0000 % 0x200), va / 0x4000_0000 % 0x200), va / 0x20_0000 % 0x200),
       va / 0x1000 % 0x200)
  }

  lemma PathOfPage(va: nat)
    ensures Depth(PathOf(va)) == 4
    ensures FirstPage(PathOf(va)) == va / 0x1000 % 0x10_0000_0000
  {
    var p := va / 0x1000;
    var q, r := p / 0x200, p / 0x4_0000;
    DivDiv(va, 0x1000, 0x200);
    DivDiv(va, 0x1000, 0x4_0000);
    DivDiv(va, 0x1000, 0x800_0000);
    DivDiv(p, 0x200, 0x200);
    DivDiv(p, 0x4_0000, 0x200);
    DivDiv(p, 0x800_0000, 0x200);
    FirstPageIs(r / 0x200 % 0x200, r % 0x200, q % 0x200, p % 0x200);
    SplitIndex(p, q, r, r / 0x200, r / 0x200 / 0x200);
  }

  lemma FirstPageIs(a: Index, b: Index, c: Index, d: Index)
    ensures var n := In(In(In(In(Top, a), b), c), d);
      Depth(n) == 4 && FirstPage(n) == 0x800_0000 * a + 0x4_0000 * b + 0x200 * c + d
  {
    var n1 := In(Top, a);
    var n2 := In(n1, b);
    var n3 := In(n2, c);
    assert Depth(n1) == 1 && Depth(n2) == 2 && Depth(n3) == 3;
    assert FirstPage(n1) == 0x800_0000 * a;
    assert FirstPage(n2) == FirstPage(n1) + 0x4_0000 * b;
    assert FirstPage(n3) == FirstPage(n2) + 0x200 * c;
  }

  lemma SplitIndex(p: nat, q: nat, r: nat, s: nat, t: nat)
    requires q == p / 0x200 && r == q / 0x200 && s == r / 0x200 && t == s / 0x200
    ensures 0x800_0000 * (s % 0x200) + 0x4_0000 * (r % 0x200) + 0x200 * (q % 0x200) + p % 0x200 == p % 0x10_0000_0000
  {
    var low := 0x800_0000 * (s % 0x200) + 0x4_0000 * (r % 0x200) + 0x200 * (q % 0x200) + p % 0x200;
    DivIs(p, 0x10_0000_0000, t, low);
  }

  // ---------------------------------------------------------------- the processor's walk

  /** A leaf's own attribute bits. */
  datatype Attr = Attr(wr: bool, user: bool, pwt: bool, pcd: bool, global: bool, nx: bool)

  /** What the processor finds at a place: nothing, a table, or memory.  `wr`, `user` and `nx` are the access
      rights gathered on the way down. */
  datatype View =
    | Fault
    | Dir(table: nat, wr: bool, user: bool, nx: bool)
    | Leaf(frame: nat, wr: bool, user: bool, nx: bool, attr: Attr)

  function AttrOf(e: Word): Attr {
    Attr(Wr(e), User(e), Pwt(e), Pcd(e), Global(e), Nx(e))
  }

  /** First frame of a leaf found at the given depth. */
  function LeafFrame(depth: nat, e: Word): nat {
    if depth == 4 then FrameOf(e)
    else if depth == 3 then FrameOf(e) / 0x200 * 0x200
    else FrameOf(e) / 0x4_0000 * 0x4_0000
  }

  /** The view an entry gives at the given depth, below rights wr, user, nx.  A PML4 entry must not have its
      page-size bit set. */
  function EntryView(depth: nat, e: Word, wr: bool, user: bool, nx: bool): View {
    if !Present(e) then Fault
    else if depth == 4 || (LargePage(e) && 2 <= depth) then
      Leaf(LeafFrame(depth, e), wr && Wr(e), user && User(e), nx || Nx(e), AttrOf(e))
    else if LargePage(e) then Fault
    else Dir(FrameOf(e), wr && Wr(e), user && User(e), nx || Nx(e))
  }

  /** What sits at child `idx`, at the given depth, of a place with view v. */
  function ChildView(mem: Memory, v: View, depth: nat, idx: Index): View {
    match v
    case Fault => Fault
    case Leaf(_, _, _, _, _) => v.(frame := v.frame + Scale(depth, idx))
    case Dir(t, wr, user, nx) => EntryView(depth, Load(mem, t, idx), wr, user, nx)
  }

  /** The processor's walk from the PML4 in frame `root`. */
  function Resolve(mem: Memory, root: nat, n: Path): View {
    if n.Top? then Dir(root, true, true, false)
    else ChildView(mem, Resolve(mem, root, n.parent), Depth(n), n.idx)
  }

  /** An address the processor accepts: bits 47 to 63 agree (Intel 64 SDM Volume 1, section 3.3.7.1). */
  predicate Canonical(va: Word) {
    va < 0x8000_0000_0000 || va >= 0xFFFF_8000_0000_0000
  }

  /** Bytes lo to hi from base on have such addresses. */
  ghost predicate CanonicalRange(base: Word, lo: nat, hi: nat) {
    forall j :: lo <= j < hi ==> Canonical(Add64(base, j))
  }

  const IDENTITY_ATTR: Attr := Attr(true, false, false, false, false, false)

  /** A page that shows its own frame, writable for the kernel only. */
  function IdentityLeaf(p: Path): View {
    Leaf(FirstPage(p), true, false, false, IDENTITY_ATTR)
  }

  // ---------------------------------------------------------------- the shape the kernel keeps

  /** A table sits at n. */
  predicate IsDir(mem: Memory, root: nat, n: Path) {
    Depth(n) <= 3 && Resolve(mem, root, n).Dir?
  }

  function TableAt(mem: Memory, root: nat, n: Path): nat
    requires IsDir(mem, root, n)
  {
    Resolve(mem, root, n).table
  }

  /** An interior entry holds nothing above bit 51, and the PML4 holds no large pages. */
  predicate EntryOk(depth: nat, e: Word) {
    Present(e) && depth <= 3 ==>
      && (!LargePage(e) ==> e < 0x10_0000_0000_0000)
      && (depth == 1 ==> !LargePage(e))
  }

  /** The tables form a tree of pairwise distinct frames out of `used`. */
  ghost predicate TreeOk(mem: Memory, root: nat, used: set<nat>) {
    && (forall n :: IsDir(mem, root, n) ==> TableAt(mem, root, n) in used && TableAt(mem, root, n) < |mem|)
    && (forall n, m :: IsDir(mem, root, n) && IsDir(mem, root, m) && n != m ==>
          TableAt(mem, root, n) != TableAt(mem, root, m))
    && (forall n, i: Index :: IsDir(mem, root, n) ==>
          EntryOk(Depth(n) + 1, Load(mem, TableAt(mem, root, n), i)))
  }

  /** For every mapped page the rights gathered on the way down are the leaf's own. */
  ghost predicate LeafCarriesPolicy(mem: Memory, root: nat) {
    forall n :: Depth(n) == 4 ==> PolicyOk(Resolve(mem, root, n))
  }

  predicate PolicyOk(v: View) {
    v.Leaf? ==> v.wr == v.attr.wr && v.user == v.attr.user && v.nx == v.attr.nx
  }

  ghost predicate IsTable(mem: Memory, root: nat, f: nat) {
    exists n :: IsDir(mem, root, n) && TableAt(mem, root, n) == f
  }

  /** The frames that hold tables. */
  ghost function Tables(mem: Memory, root: nat): set<nat> {
    set f: nat | f < |mem| && IsTable(mem, root, f)
  }
}
