/** 64-bit words as bounded naturals.  Masks of contiguous bits are written with `/` and `%`, which
    are exact on naturals; `|` is the bitwise recursion below. */
module Words {

  type Word = w: nat | w < 0x1_0000_0000_0000_0000

  /** Sum modulo 2^64, the source's unsigned addition. */
  function Add64(a: nat, b: nat): Word {
    (a + b) % 0x1_0000_0000_0000_0000
  }

  /** Difference modulo 2^64, the source's unsigned subtraction. */
  function Sub64(a: nat, b: nat): Word {
    (a - b) % 0x1_0000_0000_0000_0000
  }

  /** Quotient and remainder are determined by the division equation. */
  lemma DivIs(x: nat, d: nat, q: nat, r: nat)
    requires r < d && x == q * d + r
    ensures x / d == q && x % d == r
  {
    var k := x / d - q;
    assert x == (x / d) * d + x % d;
    assert k * d == r - x % d;
    MultipleIsFar(k, d);
  }

  lemma MultipleIsFar(k: int, d: nat)
    ensures k > 0 ==> k * d >= d
    ensures k < 0 ==> k * d + d <= 0
  {
    if k > 0 {
      Product(k - 1, d);
    } else if k < 0 {
      Product(-k - 1, d);
    }
  }

  lemma Product(a: nat, b: nat)
    ensures a * b >= 0
  {
  }

  lemma Regroup(a: nat, b: nat, q: nat, r: nat)
    ensures (q * b + r) * a == q * (a * b) + r * a
  {
    assert (q * b) * a == q * (a * b);
  }

  lemma BelowProduct(a: nat, b: nat, r: nat, r': nat)
    requires r < a && r' < b
    ensures r' * a + r < a * b
  {
    Product(b - 1 - r', a);
    assert (b - 1 - r') * a == a * b - a - r' * a;
  }

  lemma Euclid(x: nat, d: nat)
    requires d > 0
    ensures x == x / d * d + x % d && x % d < d
  {
  }

  lemma DivDivFrom(x: nat, a: nat, b: nat, q: nat, r: nat, q': nat, r': nat)
    requires x == q * a + r && r < a && q == q' * b + r' && r' < b && a * b > 0
    ensures x / (a * b) == q'
  {
    BelowProduct(a, b, r, r');
    Regroup(a, b, q', r');
    DivIs(x, a * b, q', r' * a + r);
  }

  /** Dividing twice. */
  lemma DivDiv(x: nat, a: nat, b: nat)
    requires a > 0 && b > 0
    ensures a * b > 0 && x / (a * b) == x / a / b
  {
    var q := x / a;
    BelowProduct(a, b, 0, 0);
    Euclid(x, a);
    Euclid(q, b);
    DivDivFrom(x, a, b, q, x % a, q / b, q % b);
  }

  /** The bit at weight d of a word given as its parts below, at and above that bit. */
  lemma BitIs(x: nat, d: nat, low: nat, b: nat, high: nat)
    requires low < d && b <= 1 && x == low + d * b + d * (2 * high)
    ensures x / d % 2 == b
  {
    assert d * b + d * (2 * high) == (b + 2 * high) * d;
    DivIs(x, d, b + 2 * high, low);
  }

  /** a shifted left by k bits. */
  function Shl(a: nat, k: nat): nat {
    if k == 0 then a else 2 * Shl(a, k - 1)
  }

  /** Bitwise or. */
  function Or(a: nat, b: nat): nat {
    if a == 0 then b
    else if b == 0 then a
    else 2 * Or(a / 2, b / 2) + (if a % 2 == 1 || b % 2 == 1 then 1 else 0)
  }

  /** Or of 64-bit words is a 64-bit word. */
  lemma OrFits(a: Word, b: Word)
    ensures Or(a, b) < 0x1_0000_0000_0000_0000
  {
    Shifts(1);
    ShlByFour(1, 60);
    ShlByFour(1, 56);
    ShlByFour(1, 52);
    ShlByFour(1, 48);
    ShlBySixteen(1, 0);
    ShlBySixteen(1, 16);
    ShlBySixteen(1, 32);
    ShlZero(64);
    OrSplits(64, 0, 0, a, b);
  }

  function Or64(a: Word, b: Word): Word {
    OrFits(a, b);
    Or(a, b)
  }

  lemma {:induction false} OrCommutes(a: nat, b: nat)
    ensures Or(a, b) == Or(b, a)
  {
    if a != 0 && b != 0 {
      OrCommutes(a / 2, b / 2);
    }
  }

  /** The recursion equation also holds when an argument is zero. */
  lemma OrUnfold(a: nat, b: nat)
    ensures Or(a, b) == 2 * Or(a / 2, b / 2) + (if a % 2 == 1 || b % 2 == 1 then 1 else 0)
  {
  }

  /** Or works on the bits above and below position k separately. */
  lemma {:induction false} OrSplits(k: nat, a: nat, b: nat, c: nat, d: nat)
    requires c < Shl(1, k) && d < Shl(1, k)
    ensures Or(Shl(a, k) + c, Shl(b, k) + d) == Shl(Or(a, b), k) + Or(c, d)
    ensures Or(c, d) < Shl(1, k)
  {
    if k > 0 {
      var x, y := Shl(a, k) + c, Shl(b, k) + d;
      assert x / 2 == Shl(a, k - 1) + c / 2 && y / 2 == Shl(b, k - 1) + d / 2;
      assert x % 2 == c % 2 && y % 2 == d % 2;
      OrSplits(k - 1, a, b, c / 2, d / 2);
      OrUnfold(x, y);
      OrUnfold(c, d);
    }
  }

  /** Or of values that share no bit position adds them. */
  lemma OrDisjoint(k: nat, a: nat, b: nat)
    requires b < Shl(1, k)
    ensures Or(Shl(a, k), b) == Or(b, Shl(a, k)) == Shl(a, k) + b
  {
    ShlZero(k);
    OrSplits(k, a, 0, 0, b);
    OrCommutes(Shl(a, k), b);
  }

  lemma {:induction false} ShlZero(k: nat)
    ensures Shl(0, k) == 0
    ensures Shl(1, k) > 0
  {
    if k > 0 {
      ShlZero(k - 1);
    }
  }

  lemma ShlByFour(a: nat, k: nat)
    ensures Shl(a, k + 4) == 16 * Shl(a, k)
  {
    assert Shl(a, k + 4) == 2 * Shl(a, k + 3);
    assert Shl(a, k + 3) == 2 * Shl(a, k + 2);
    assert Shl(a, k + 2) == 2 * Shl(a, k + 1);
  }

  lemma ShlBySixteen(a: nat, k: nat)
    ensures Shl(a, k + 16) == 0x1_0000 * Shl(a, k)
  {
    ShlByFour(a, k);
    ShlByFour(a, k + 4);
    ShlByFour(a, k + 8);
    ShlByFour(a, k + 12);
  }

  /** Shifts by the positions the page tables use. */
  lemma Shifts(a: nat)
    ensures Shl(a, 1) == 2 * a && Shl(a, 2) == 4 * a && Shl(a, 3) == 8 * a && Shl(a, 7) == 0x80 * a
    ensures Shl(a, 8) == 0x100 * a && Shl(a, 12) == 0x1000 * a
    ensures Shl(a, 51) == 0x8_0000_0000_0000 * a && Shl(a, 63) == 0x8000_0000_0000_0000 * a
  {
    assert Shl(a, 0) == a;
    assert Shl(a, 1) == 2 * a;
    assert Shl(a, 2) == 2 * Shl(a, 1);
    assert Shl(a, 3) == 2 * Shl(a, 2);
    ShlByFour(a, 3);
    ShlByFour(a, 0);
    ShlByFour(a, 4);
    ShlByFour(a, 8);
    ShlBySixteen(a, 3);
    ShlBySixteen(a, 19);
    ShlBySixteen(a, 35);
    ShlByFour(a, 51);
    ShlByFour(a, 55);
    ShlByFour(a, 59);
  }
}
