/** The words the kernel writes into page tables, read back through the entry fields. */
module Entries {
  import opened Words
  import opened PhysicalMemory
  import opened PageTables

  type Shift = k: nat | k == 12 || k == 21 || k == 30 || k == 39 witness 12

  /** 1 << k. */
  function Reach(k: Shift): nat {
    if k == 12 then 0x1000 else if k == 21 then 0x20_0000 else if k == 30 then 0x4000_0000 else 0x80_0000_0000
  }

  /** Entry i of the table that replaces the large page e. */
  function SplitEntry(e: Word, shift: Shift, i: Index): Word
    requires shift > 12
  {
    var step := Reach(shift);
    var base: Word := e - e % step;
    var perm := Or64(Or64(e % 0x20, e / 0x100 % 2 * 0x100), e / 0x8000_0000_0000_0000 * 0x8000_0000_0000_0000);
    Or64(Or64(Add64(base, i * (step / 0x200)), perm), if shift > 21 then 0x80 else 0)
  }

  function SplitFrame(e: Word, shift: Shift): Frame
    requires shift > 12
  {
    seq(512, i requires 0 <= i < 512 => SplitEntry(e, shift, i))
  }

  /** The word mm_map_page_in leaves in a slot. */
  function LeafEntry(pa: Word, flags: Word): Word {
    flags / 2 % 2 + flags / 4 % 2 * 2 + flags / 8 % 2 * 4 + flags / 0x40 % 2 * 8 + flags / 0x20 % 2 * 0x10
    + pa / 0x1000 % 0x100_0000_0000 * 0x1000 + flags / 0x10 % 2 * 0x8000_0000_0000_0000
  }

  // ---------------------------------------------------------------- a word and its fields

  /** The fields of a word, low to high; `m`, `k` and `h` are the bits 5..6, 9..11 and 52..62. */
  datatype Parts = Parts(
    p: nat, w: nat, u: nat, pwt: nat, pcd: nat, m: nat, ps: nat, g: nat, k: nat, frame: nat, h: nat, x: nat)
  {
    predicate Ok() {
      && p <= 1 && w <= 1 && u <= 1 && pwt <= 1 && pcd <= 1 && m <= 3 && ps <= 1 && g <= 1 && k <= 7
      && frame < 0x100_0000_0000 && h < 0x800 && x <= 1
    }

    function Low5(): nat { p + 2 * w + 4 * u + 8 * pwt + 0x10 * pcd }

    function Low12(): nat { Low5() + 0x20 * m + 0x80 * ps + 0x100 * g + 0x200 * k }

    function High(): nat { frame + 0x100_0000_0000 * h + 0x8_0000_0000_0000 * x }

    function Word(): nat { Low12() + 0x1000 * High() }
  }

  lemma LowFields(e: Word, q: Parts)
    requires q.Ok() && e == q.Word()
    ensures e % 2 == q.p && e / 2 % 2 == q.w && e / 4 % 2 == q.u && e / 8 % 2 == q.pwt && e / 0x10 % 2 == q.pcd
  {
    var a5 := q.m + 4 * q.ps + 8 * q.g + 0x10 * q.k + 0x80 * q.High();
    BitIs(e, 1, 0, q.p, q.w + 2 * q.u + 4 * q.pwt + 8 * q.pcd + 0x10 * a5);
    BitIs(e, 2, q.p, q.w, q.u + 2 * q.pwt + 4 * q.pcd + 8 * a5);
    BitIs(e, 4, q.p + 2 * q.w, q.u, q.pwt + 2 * q.pcd + 4 * a5);
    BitIs(e, 8, q.p + 2 * q.w + 4 * q.u, q.pwt, q.pcd + 2 * a5);
    BitIs(e, 0x10, q.p + 2 * q.w + 4 * q.u + 8 * q.pwt, q.pcd, a5);
  }

  lemma MidFields(e: Word, q: Parts)
    requires q.Ok() && e == q.Word()
    ensures e / 0x80 % 2 == q.ps && e / 0x100 % 2 == q.g && e % 0x20 == q.Low5()
  {
    var a9 := q.k + 8 * q.High();
    BitIs(e, 0x80, q.Low5() + 0x20 * q.m, q.ps, q.g + 2 * a9);
    BitIs(e, 0x100, q.Low5() + 0x20 * q.m + 0x80 * q.ps, q.g, a9);
    DivIs(e, 0x20, q.m + 4 * q.ps + 8 * q.g + 0x10 * a9, q.Low5());
  }

  lemma HighFields(e: Word, q: Parts)
    requires q.Ok() && e == q.Word()
    ensures e / 0x1000 == q.High() && FrameOf(e) == q.frame && e / 0x8000_0000_0000_0000 == q.x
  {
    DivIs(e, 0x1000, q.High(), q.Low12());
    DivIs(q.High(), 0x100_0000_0000, q.h + 0x800 * q.x, q.frame);
    DivIs(e, 0x8000_0000_0000_0000, q.x, q.Low12() + 0x1000 * q.frame + 0x10_0000_0000_0000 * q.h);
  }

  /** A composed word reads back as its fields. */
  lemma Fields(e: Word, q: Parts)
    requires q.Ok() && e == q.Word()
    ensures Present(e) == (q.p == 1) && LargePage(e) == (q.ps == 1) && FrameOf(e) == q.frame
    ensures AttrOf(e) == Attr(q.w == 1, q.u == 1, q.pwt == 1, q.pcd == 1, q.g == 1, q.x == 1)
  {
    LowFields(e, q);
    MidFields(e, q);
    HighFields(e, q);
  }

  /** Some decomposition, with the named fields read off. */
  lemma Dissect(e: Word) returns (q: Parts)
    ensures q.Ok() && e == q.Word()
    ensures Present(e) == (q.p == 1) && LargePage(e) == (q.ps == 1) && FrameOf(e) == q.frame
    ensures AttrOf(e) == Attr(q.w == 1, q.u == 1, q.pwt == 1, q.pcd == 1, q.g == 1, q.x == 1)
  {
    Decompose(e);
    q := PartsOf(e);
  }

  function PartsOf(e: Word): Parts {
    Parts(e % 2, e / 2 % 2, e / 4 % 2, e / 8 % 2, e / 0x10 % 2, e / 0x20 % 4, e / 0x80 % 2, e / 0x100 % 2,
          e / 0x200 % 8, FrameOf(e), e / 0x10_0000_0000_0000 % 0x800, e / 0x8000_0000_0000_0000)
  }

  /** Every word is composed of its fields. */
  lemma Decompose(e: Word)
    ensures PartsOf(e).Ok() && e == PartsOf(e).Word()
  {
    DecomposeLow(e);
    DivDiv(e, 0x1000, 0x100_0000_0000);
    DivDiv(e, 0x10_0000_0000_0000, 0x800);
    Rest(e, 0x1000);
    Rest(e / 0x1000, 0x100_0000_0000);
    Rest(e / 0x10_0000_0000_0000, 0x800);
  }

  lemma DecomposeLow(e: Word)
    ensures e % 0x1000 == PartsOf(e).Low12()
  {
    DivDiv(e, 2, 2);
    DivDiv(e, 4, 2);
    DivDiv(e, 8, 2);
    DivDiv(e, 0x10, 2);
    DivDiv(e, 0x20, 4);
    DivDiv(e, 0x80, 2);
    DivDiv(e, 0x100, 2);
    DivDiv(e, 0x200, 8);
    Rest(e, 2);
    Rest(e / 2, 2);
    Rest(e / 4, 2);
    Rest(e / 8, 2);
    Rest(e / 0x10, 2);
    Rest(e / 0x20, 4);
    Rest(e / 0x80, 2);
    Rest(e / 0x100, 2);
    Rest(e / 0x200, 8);
    DivIs(e, 0x1000, e / 0x1000, PartsOf(e).Low12());
  }

  lemma Rest(x: nat, d: nat)
    requires d > 0
    ensures x == x % d + d * (x / d)
  {
  }

  // ---------------------------------------------------------------- or with permission bits

  lemma OrAligned(a: Word, b: Word)
    requires a % 0x1000 == 0 && b < 0x1000
    ensures Or64(a, b) == a + b
  {
    Shifts(1);
    Shifts(a / 0x1000);
    OrDisjoint(12, a / 0x1000, b);
  }

  lemma OrSeven(e: Word)
    ensures Or64(e, 7) == e - e % 8 + 7
  {
    Shifts(1);
    Shifts(e / 8);
    OrSplits(3, e / 8, 0, e % 8, 7);
    Shifts(0);
    var c := e % 8;
    assert Or(c, 7) == 7 by {
      OrUnfold(c, 7);
      OrUnfold(c / 2, 3);
      OrUnfold(c / 4, 1);
      assert Or(c / 8, 0) == 0;
    }
    OrCommutes(e / 8, 0);
  }

  /** A table frame ored with permission bits is a well-formed interior entry. */
  lemma TableEntry(frame: Word, perm: Word)
    requires frame % 0x1000 == 0 && frame < 0x10_0000_0000_0000 && (perm == 7 || perm == 3)
    ensures var e := Or64(frame, perm);
      && Present(e) && !LargePage(e) && FrameOf(e) == frame / 0x1000 == e / 0x1000 && e < 0x10_0000_0000_0000
      && Wr(e) && (User(e) <==> perm == 7)
  {
    OrAligned(frame, perm);
    var f := frame / 0x1000;
    Rest(frame, 0x1000);
    var q := Parts(1, 1, if perm == 7 then 1 else 0, 0, 0, 0, 0, 0, 0, f, 0, 0);
    Fields(Or64(frame, perm), q);
    HighFields(Or64(frame, perm), q);
  }

  lemma OpenFields(e: Word, q: Parts)
    requires q.Ok() && e == q.Word() && q.ps == 0 && q.h == 0 && q.x == 0
    ensures Or64(e, 7) == q.(p := 1, w := 1, u := 1).Word()
  {
    var high := q.pwt + 2 * q.pcd + 4 * q.m + 0x20 * q.g + 0x40 * q.k + 0x200 * q.frame;
    hide Or;
    DivIs(e, 8, high, q.p + 2 * q.w + 4 * q.u);
    OrSeven(e);
  }

  /** Opening up an interior entry keeps its target. */
  lemma OpenEntry(e: Word)
    requires Present(e) && !LargePage(e) && e < 0x10_0000_0000_0000
    ensures var e' := Or64(e, 7);
      && Present(e') && !LargePage(e') && FrameOf(e') == FrameOf(e) == e' / 0x1000 && e' < 0x10_0000_0000_0000
      && Wr(e') && User(e')
  {
    hide Or, Or64, Present, LargePage, FrameOf, AttrOf, Wr, User;
    var q := Dissect(e);
    var q' := q.(p := 1, w := 1, u := 1);
    SmallFields(e, q);
    OpenFields(e, q);
    Fields(Or64(e, 7), q');
    HighFields(Or64(e, 7), q');
    SmallWord(q');
    AttrBits(Or64(e, 7));
  }

  /** A word below 2^52 has no high fields. */
  lemma SmallFields(e: Word, q: Parts)
    requires q.Ok() && e == q.Word() && e < 0x10_0000_0000_0000
    ensures q.h == 0 && q.x == 0
  {
  }

  lemma SmallWord(q: Parts)
    requires q.Ok() && q.h == 0 && q.x == 0
    ensures q.Word() < 0x10_0000_0000_0000 && q.High() == q.frame
  {
  }

  lemma AttrBits(e: Word)
    ensures AttrOf(e).wr == Wr(e) && AttrOf(e).user == User(e)
  {
  }

  // ---------------------------------------------------------------- splitting

  /** The permission bits a split carries over, as a sum. */
  lemma PermBits(low: nat, g: nat, x: nat)
    requires low < 0x20 && g <= 1 && x <= 1
    ensures Or64(Or64(low, g * 0x100), x * 0x8000_0000_0000_0000) == low + g * 0x100 + x * 0x8000_0000_0000_0000
  {
    OrGlobal(low, g);
    OrNx(low + g * 0x100, x);
  }

  lemma OrGlobal(low: nat, g: nat)
    requires low < 0x20 && g <= 1
    ensures Or(low, g * 0x100) == low + g * 0x100
  {
    hide Or, Shl;
    Shifts(1);
    Shifts(g);
    OrDisjoint(8, g, low);
  }

  lemma OrNx(low: nat, x: nat)
    requires low < 0x1000 && x <= 1
    ensures Or(low, x * 0x8000_0000_0000_0000) == low + x * 0x8000_0000_0000_0000
  {
    hide Or, Shl;
    Shifts(1);
    Shifts(x);
    OrDisjoint(63, x, low);
  }

  /** Or with bits already there, or below bit 12 of an aligned word. */
  lemma OrKeepsTop(al: nat, x: nat, low: nat)
    requires x <= 1 && al < 0x8_0000_0000_0000 && low < 0x1000
    ensures var a := x * 0x8000_0000_0000_0000 + 0x1000 * al;
      Or64(a, x * 0x8000_0000_0000_0000 + low) == a + low
  {
    var top := x * 0x8_0000_0000_0000;
    var am := top + al;
    hide Or;
    OrTop(al, x);
    Shifts(1);
    Shifts(am);
    Shifts(top);
    OrSplits(12, am, top, 0, low);
    OrZeroLeft(low);
  }

  lemma OrZeroLeft(a: nat)
    ensures Or(0, a) == a
  {
  }

  lemma OrTop(al: nat, x: nat)
    requires x <= 1 && al < 0x8_0000_0000_0000
    ensures Or(x * 0x8_0000_0000_0000 + al, x * 0x8_0000_0000_0000) == x * 0x8_0000_0000_0000 + al
  {
    Shifts(1);
    Shifts(x);
    OrSplits(51, x, x, al, 0);
    assert Or(x, x) == x;
    OrCommutes(al, 0);
  }

  lemma OrZero(a: Word)
    ensures Or64(a, 0) == a
  {
  }

  lemma OrLow7(low: nat)
    requires low < 0x80
    ensures Or(low, 0x80) == low + 0x80
  {
    Shifts(1);
    OrDisjoint(7, 1, low);
  }

  lemma OrPageSize(high: nat, low: nat)
    requires low < 0x80 && high < 0x100_0000_0000_0000
    ensures Or64(high * 0x100 + low, 0x80) == high * 0x100 + low + 0x80
  {
    OrLow7(low);
    Shifts(1);
    Shifts(0);
    Shifts(high);
    OrSplits(8, high, 0, low, 0x80);
    OrCommutes(high, 0);
    OrZeroLeft(high);
    hide Or;
  }

  /** The words a split writes: q is the large page's number, al the target's bits 12..62. */
  lemma SplitWord(base: Word, off: nat, low: nat, g: nat, x: nat, al: nat, ps: nat)
    requires low < 0x20 && g <= 1 && x <= 1 && al < 0x8_0000_0000_0000 && (ps == 0 || ps == 0x80)
    requires base + off == x * 0x8000_0000_0000_0000 + 0x1000 * al
    ensures Or64(Or64(Add64(base, off), Or64(Or64(low, g * 0x100), x * 0x8000_0000_0000_0000)), ps)
      == base + off + low + g * 0x100 + ps
  {
    hide Or;
    PermBits(low, g, x);
    OrKeepsTop(al, x, low + g * 0x100);
    if ps == 0x80 {
      OrPageSize(x * 0x80_0000_0000_0000 + 0x10 * al + g, low);
    } else {
      OrZero(base + off + low + g * 0x100);
    }
  }

  /** A split reads these parts of the large page. */
  lemma SplitParts(e: Word, q: Parts)
    requires q.Ok() && e == q.Word()
    ensures e % 0x20 == q.Low5() < 0x20 && e / 0x100 % 2 == q.g && e / 0x8000_0000_0000_0000 == q.x
    ensures q.Low12() < 0x1000
  {
    MidFields(e, q);
    HighFields(e, q);
  }

  lemma SplitForm2M(e: Word, i: Index)
    ensures var perm := Or64(Or64(e % 0x20, e / 0x100 % 2 * 0x100), e / 0x8000_0000_0000_0000 * 0x8000_0000_0000_0000);
      SplitEntry(e, 21, i) == Or64(Or64(Add64(e - e % 0x20_0000, i * 0x1000), perm), 0)
  {
    hide Or64, Add64;
  }

  lemma SplitForm1G(e: Word, i: Index)
    ensures var perm := Or64(Or64(e % 0x20, e / 0x100 % 2 * 0x100), e / 0x8000_0000_0000_0000 * 0x8000_0000_0000_0000);
      SplitEntry(e, 30, i) == Or64(Or64(Add64(e - e % 0x4000_0000, i * 0x20_0000), perm), 0x80)
  {
    hide Or64, Add64;
  }

  /** What a split writes, given these parts. */
  lemma Splits2M(e: Word, i: Index, base: Word, low: nat, g: nat, x: nat, al: nat)
    requires e - e % 0x20_0000 == base && e % 0x20 == low && e / 0x100 % 2 == g && e / 0x8000_0000_0000_0000 == x
    requires low < 0x20 && g <= 1 && x <= 1 && al < 0x8_0000_0000_0000
    requires base + i * 0x1000 == x * 0x8000_0000_0000_0000 + 0x1000 * al
    ensures SplitEntry(e, 21, i) == base + i * 0x1000 + low + g * 0x100
  {
    hide *;
    SplitForm2M(e, i);
    SplitWord(base, i * 0x1000, low, g, x, al, 0);
  }

  lemma Splits1G(e: Word, i: Index, base: Word, low: nat, g: nat, x: nat, al: nat)
    requires e - e % 0x4000_0000 == base && e % 0x20 == low && e / 0x100 % 2 == g && e / 0x8000_0000_0000_0000 == x
    requires low < 0x20 && g <= 1 && x <= 1 && al < 0x8_0000_0000_0000
    requires base + i * 0x20_0000 == x * 0x8000_0000_0000_0000 + 0x1000 * al
    ensures SplitEntry(e, 30, i) == base + i * 0x20_0000 + low + g * 0x100 + 0x80
  {
    hide *;
    SplitForm1G(e, i);
    SplitWord(base, i * 0x20_0000, low, g, x, al, 0x80);
  }

  lemma Split2MWord(e: Word, q: Parts, hi: nat, lo: nat, i: Index)
    requires q.Ok() && e == q.Word() && q.ps == 1
    requires q.frame == hi * 0x200 + lo && lo < 0x200
    ensures SplitEntry(e, 21, i) == q.(m := 0, ps := 0, k := 0, frame := hi * 0x200 + i).Word()
  {
    var n := hi + 0x8000_0000 * q.h + 0x400_0000_0000 * q.x;
    SplitParts(e, q);
    SplitBase2M(e, q, hi, lo, n);
    Split2MTarget(q, hi, i, n);
    hide *;
    Splits2M(e, i, n * 0x20_0000, q.Low5(), q.g, q.x, hi * 0x200 + i + 0x100_0000_0000 * q.h);
  }

  lemma Split2MTarget(q: Parts, hi: nat, i: Index, n: nat)
    requires q.Ok() && hi < 0x8000_0000 && n == hi + 0x8000_0000 * q.h + 0x400_0000_0000 * q.x
    ensures q.g <= 1 && q.x <= 1 && hi * 0x200 + i + 0x100_0000_0000 * q.h < 0x8_0000_0000_0000
    ensures n * 0x20_0000 + i * 0x1000
      == q.x * 0x8000_0000_0000_0000 + 0x1000 * (hi * 0x200 + i + 0x100_0000_0000 * q.h)
    ensures n * 0x20_0000 + i * 0x1000 + q.Low5() + q.g * 0x100
      == q.(m := 0, ps := 0, k := 0, frame := hi * 0x200 + i).Word()
  {
  }

  lemma SplitBase2M(e: Word, q: Parts, hi: nat, lo: nat, n: nat)
    requires q.Ok() && e == q.Word()
    requires q.frame == hi * 0x200 + lo && lo < 0x200 && n == hi + 0x8000_0000 * q.h + 0x400_0000_0000 * q.x
    ensures e - e % 0x20_0000 == n * 0x20_0000 && hi < 0x8000_0000
  {
    DivIs(e, 0x20_0000, n, lo * 0x1000 + q.Low12());
  }

  lemma Split1GWord(e: Word, q: Parts, hi: nat, lo: nat, i: Index)
    requires q.Ok() && e == q.Word() && q.ps == 1
    requires q.frame == hi * 0x4_0000 + lo && lo < 0x4_0000
    ensures SplitEntry(e, 30, i) == q.(m := 0, k := 0, frame := hi * 0x4_0000 + 0x200 * i).Word()
  {
    var n := hi + 0x40_0000 * q.h + 0x2_0000_0000 * q.x;
    SplitParts(e, q);
    SplitBase1G(e, q, hi, lo, n);
    Split1GTarget(q, hi, i, n);
    hide *;
    Splits1G(e, i, n * 0x4000_0000, q.Low5(), q.g, q.x, hi * 0x4_0000 + 0x200 * i + 0x100_0000_0000 * q.h);
  }

  lemma Split1GTarget(q: Parts, hi: nat, i: Index, n: nat)
    requires q.Ok() && q.ps == 1 && hi < 0x40_0000 && n == hi + 0x40_0000 * q.h + 0x2_0000_0000 * q.x
    ensures q.g <= 1 && q.x <= 1 && hi * 0x4_0000 + 0x200 * i + 0x100_0000_0000 * q.h < 0x8_0000_0000_0000
    ensures n * 0x4000_0000 + i * 0x20_0000
      == q.x * 0x8000_0000_0000_0000 + 0x1000 * (hi * 0x4_0000 + 0x200 * i + 0x100_0000_0000 * q.h)
    ensures n * 0x4000_0000 + i * 0x20_0000 + q.Low5() + q.g * 0x100 + 0x80
      == q.(m := 0, k := 0, frame := hi * 0x4_0000 + 0x200 * i).Word()
  {
  }

  lemma SplitBase1G(e: Word, q: Parts, hi: nat, lo: nat, n: nat)
    requires q.Ok() && e == q.Word()
    requires q.frame == hi * 0x4_0000 + lo && lo < 0x4_0000 && n == hi + 0x40_0000 * q.h + 0x2_0000_0000 * q.x
    ensures e - e % 0x4000_0000 == n * 0x4000_0000 && hi < 0x40_0000
  {
    DivIs(e, 0x4000_0000, n, lo * 0x1000 + q.Low12());
  }

  /** Splitting a 2 MiB page: entry i is a present 4 KiB page that maps the i-th frame with the same attributes. */
  lemma Split2M(e: Word, i: Index)
    requires Present(e) && LargePage(e)
    ensures var w := SplitEntry(e, 21, i);
      Present(w) && FrameOf(w) == FrameOf(e) / 0x200 * 0x200 + i && AttrOf(w) == AttrOf(e)
  {
    hide Or, Or64, SplitEntry, Present, LargePage, FrameOf, AttrOf, Parts.Word, Parts.Low12, Parts.Low5, Parts.High;
    var q := Dissect(e);
    var hi, lo := q.frame / 0x200, q.frame % 0x200;
    Split2MWord(e, q, hi, lo, i);
    Fields(SplitEntry(e, 21, i), q.(m := 0, ps := 0, k := 0, frame := hi * 0x200 + i));
  }

  /** Splitting a 1 GiB page: entry i is a present 2 MiB page that maps the i-th part with the same attributes. */
  lemma Split1G(e: Word, i: Index)
    requires Present(e) && LargePage(e)
    ensures var w := SplitEntry(e, 30, i);
      Present(w) && LargePage(w) && FrameOf(w) == FrameOf(e) / 0x4_0000 * 0x4_0000 + 0x200 * i && AttrOf(w) == AttrOf(e)
  {
    hide Or, Or64, SplitEntry, Present, LargePage, FrameOf, AttrOf, Parts.Word, Parts.Low12, Parts.Low5, Parts.High;
    var q := Dissect(e);
    var hi, lo := q.frame / 0x4_0000, q.frame % 0x4_0000;
    Split1GWord(e, q, hi, lo, i);
    Fields(SplitEntry(e, 30, i), q.(m := 0, k := 0, frame := hi * 0x4_0000 + 0x200 * i));
  }

  /** The view of a split's entry is the large page's view moved to its part. */
  lemma SplitView(e: Word, depth: nat, i: Index, wr: bool, user: bool, nx: bool)
    requires Present(e) && LargePage(e) && (depth == 2 || depth == 3)
    ensures var shift := if depth == 2 then 30 else 21;
      var v := EntryView(depth, e, wr, user, nx);
      EntryView(depth + 1, SplitEntry(e, shift, i), wr, user, nx) == v.(frame := v.frame + Scale(depth + 1, i))
  {
    hide SplitEntry;
    if depth == 2 {
      Split1G(e, i);
      var a := FrameOf(e) / 0x4_0000;
      DivIs(a * 0x4_0000 + 0x200 * i, 0x200, a * 0x200 + i, 0);
    } else {
      Split2M(e, i);
    }
  }

  // ---------------------------------------------------------------- leaves

  /** A leaf entry holds the frame and the requested policy. */
  lemma LeafEntrySpec(pa: Word, flags: Word)
    requires pa % 0x1000 == 0 && pa < 0x10_0000_0000_0000
    ensures var e := LeafEntry(pa, flags);
      && (Present(e) <==> flags / 2 % 2 == 1)
      && FrameOf(e) == pa / 0x1000
      && AttrOf(e) == Attr(flags / 4 % 2 == 1, flags / 8 % 2 == 1, flags / 0x40 % 2 == 1, flags / 0x20 % 2 == 1, false,
                           flags / 0x10 % 2 == 1)
  {
    DivIs(pa / 0x1000, 0x100_0000_0000, 0, pa / 0x1000);
    Fields(LeafEntry(pa, flags), Parts(flags / 2 % 2, flags / 4 % 2, flags / 8 % 2, flags / 0x40 % 2, flags / 0x20 % 2,
                                       0, 0, 0, 0, pa / 0x1000, 0, flags / 0x10 % 2));
  }

  /** The identity map's 2 MiB entries. */
  lemma InitLeaf(page: nat)
    requires page % 0x200 == 0 && page < 0x100_0000_0000
    ensures var e := Or64(page * 0x1000, 0x83);
      Present(e) && LargePage(e) && FrameOf(e) == page && AttrOf(e) == Attr(true, false, false, false, false, false)
  {
    OrAligned(page * 0x1000, 0x83);
    Fields(Or64(page * 0x1000, 0x83), Parts(1, 1, 0, 0, 0, 0, 1, 0, 0, page, 0, 0));
  }
}
