/**
 * Numbers as text: the saturating parser StringToLong (private/minloader/BootKit/Support.h) and rt_to_string
 * (private/minkernel/src/AsciiUtils.cpp) as its printer.  The reading is that of strtol, section 7.22.1.4 of C11, with
 * two differences of the source: only ' ' counts as white space, where the standard takes every character of isspace,
 * and a "0b" prefix is accepted for bases 0 and 2, which the standard has from C23 on.
 */
module NumberText {
  import Words
  import opened Wrappers

  /** The source's signed eight-bit Char. */
  type Char = c: int | -128 <= c < 128

  // ---------------------------------------------------------------- the reading

  /** The character at i; outside the text, the terminator. */
  function At(s: seq<Char>, i: nat): Char {
    if i < |s| then s[i] else 0
  }

  /** The value of a digit or letter; 36 for every other character. */
  function DigitOf(c: Char): (d: nat)
    ensures d <= 36
  {
    if 48 <= c <= 57 then c - 48
    else if 65 <= c <= 90 then c - 55
    else if 97 <= c <= 122 then c - 87
    else 36
  }

  predicate IsDigit(c: Char, base: nat) {
    DigitOf(c) < base
  }

  /** The first character from i on that is not a space. */
  function SkipSpaces(s: seq<Char>, i: nat): (j: nat)
    requires i <= |s|
    ensures i <= j <= |s|
    decreases |s| - i
  {
    if At(s, i) == 32 then SkipSpaces(s, i + 1) else i
  }

  /** The end of the longest run of digits from i on. */
  function RunEnd(s: seq<Char>, i: nat, base: nat): (j: nat)
    requires i <= |s| && base <= 36
    ensures i <= j <= |s|
    decreases |s| - i
  {
    if IsDigit(At(s, i), base) then RunEnd(s, i + 1, base) else i
  }

  /** The number a sequence of digits denotes. */
  function Value(digits: seq<Char>, base: nat): nat
    decreases |digits|
  {
    if digits == [] then 0
    else Value(digits[..|digits| - 1], base) * base + DigitOf(digits[|digits| - 1])
  }

  /** A prefix of two characters counts only when a digit of its base follows. */
  predicate HasPrefix(s: seq<Char>, i: nat, upper: Char, lower: Char, base: nat) {
    At(s, i) == 48 && (At(s, i + 1) == upper || At(s, i + 1) == lower) && IsDigit(At(s, i + 2), base)
  }

  /** Where the digits of the subject sequence start and what their base is. */
  function Subject(s: seq<Char>, i: nat, radix: nat): (r: (nat, nat))
    requires i <= |s| && radix != 1 && radix <= 36
    ensures i <= r.0 <= |s| && 2 <= r.1 <= 36
  {
    if (radix == 16 || radix == 0) && HasPrefix(s, i, 88, 120, 16) then (i + 2, 16)
    else if (radix == 2 || radix == 0) && HasPrefix(s, i, 66, 98, 2) then (i + 2, 2)
    else if radix == 0 then (i, if At(s, i) == 48 then 8 else 10)
    else (i, radix)
  }

  function Clamp(v: int, half: int): int {
    if v < -half then -half else if v >= half then half - 1 else v
  }

  function Signed(v: int, negative: bool): int {
    if negative then -v else v
  }

  predicate ValidRadix(radix: int) {
    0 <= radix <= 36 && radix != 1
  }

  /** The sign, the start of the digits and their base. */
  function Form(s: seq<Char>, radix: nat): (r: (bool, nat, nat))
    requires radix != 1 && radix <= 36
    ensures r.1 <= |s| && 2 <= r.2 <= 36
  {
    var i := SkipSpaces(s, 0);
    var sign := At(s, i) == 43 || At(s, i) == 45;
    var (start, base) := Subject(s, if sign then i + 1 else i, radix);
    (At(s, i) == 45, start, base)
  }

  /** The value read, in a long of range [-half, half). */
  function Reading(s: seq<Char>, radix: nat, half: nat): int
    requires radix != 1 && radix <= 36
  {
    var (negative, start, base) := Form(s, radix);
    Clamp(Signed(Value(s[start..RunEnd(s, start, base)], base), negative), half)
  }

  /** Where reading stops: at the text's start when it has no digits. */
  function Stop(s: seq<Char>, radix: nat): nat
    requires radix != 1 && radix <= 36
  {
    var (_, start, base) := Form(s, radix);
    if RunEnd(s, start, base) == start then 0 else RunEnd(s, start, base)
  }

  // ---------------------------------------------------------------- the parser

  /** v & ~('a' ^ 'A'). */
  function ClearCase(v: nat): nat {
    if v / 32 % 2 == 1 then v - 32 else v
  }

  /** The conversion of an unsigned long to long. */
  function ToLong(u: nat, half: nat): int {
    if u < half then u else u - 2 * half
  }

  /** Negation of an unsigned long. */
  function Negate(n: int, half: int): nat
    requires half > 0
  {
    -n % (2 * half)
  }

  /** StringToLong.  `half` is 2^31 or 2^63 as long has 32 or 64 bits; `end` is what is stored through endptr. */
  method StringToLong(s: seq<Char>, wantEnd: bool, radix: int, half: nat) returns (value: int, end: Option<nat>)
    requires 0 in s
    requires half == 0x8000_0000 || half == 0x8000_0000_0000_0000
    ensures ValidRadix(radix) ==> value == Reading(s, radix, half)
    ensures ValidRadix(radix) ==> end == if wantEnd then Some(Stop(s, radix)) else None
    ensures !ValidRadix(radix) ==> value == 0 && end == None
  {
    if radix < 0 || radix == 1 || radix > 36 {
      return 0, None;
    }
    var i, negative := SkipBlank(s);
    hide RunEnd, Value, Subject, Agrees, SkipSpaces, Reading, Stop, ToLong, Clamp, Signed;
    var p, base, stop := SkipPrefix(s, i, radix);
    ReadingIs(s, radix, half, p, base, stop);
    var n, over;
    n, over, stop := Digits(s, p, base, negative, stop, wantEnd, half);
    end := if wantEnd then Some(stop) else None;
    if over {
      value := if negative then ToLong(half, half) else ToLong(half - 1, half);
    } else {
      value := ToLong(if negative then Negate(n, half) else n, half);
    }
    ValueIs(Value(s[p..RunEnd(s, p, base)], base), n, over, negative, half);
  }

  /** What reading digits at p must still find out. */
  lemma ReadingIs(s: seq<Char>, radix: nat, half: nat, p: nat, base: nat, stop: nat)
    requires p <= |s| && radix != 1 && radix <= 36 && base <= 36
    requires var i := SkipSpaces(s, 0); var sign := At(s, i) == 43 || At(s, i) == 45;
             (if sign then i + 1 else i) <= |s| && Agrees(s, if sign then i + 1 else i, radix, p, base, stop)
    ensures var e := RunEnd(s, p, base);
            && Reading(s, radix, half) == Clamp(Signed(Value(s[p..e], base), At(s, SkipSpaces(s, 0)) == 45), half)
            && Stop(s, radix) == if e == p then stop else e
  {
    hide RunEnd, Value, Subject, SkipSpaces, At, Clamp, Signed;
  }

  /** The saturated or negated accumulator is the clamped value. */
  lemma ValueIs(v: nat, n: nat, over: bool, negative: bool, half: nat)
    requires half == 0x8000_0000 || half == 0x8000_0000_0000_0000
    requires over <==> v > if negative then half else half - 1
    requires !over ==> n == v
    ensures Clamp(Signed(v, negative), half)
         == if over then (if negative then ToLong(half, half) else ToLong(half - 1, half))
            else ToLong(if negative then Negate(n, half) else n, half)
  {
    if negative && !over {
      assert Negate(n, half) == if n == 0 then 0 else 2 * half - n;
    }
  }

  /** Spaces and a sign. */
  method SkipBlank(s: seq<Char>) returns (p: nat, negative: bool)
    requires 0 in s
    ensures var i := SkipSpaces(s, 0);
            p == (if At(s, i) == 43 || At(s, i) == 45 then i + 1 else i) && negative == (At(s, i) == 45)
    ensures p < |s| && 0 in s[p..]
  {
    ghost var z :| 0 <= z < |s| && s[z] == 0;
    p := 0;
    while s[p] == 32
      invariant p <= z && SkipSpaces(s, p) == SkipSpaces(s, 0)
      decreases z - p
    {
      p := p + 1;
    }
    negative := false;
    if s[p] == 43 {
      p := p + 1;
    } else if s[p] == 45 {
      negative, p := true, p + 1;
    }
    assert s[p..][z - p] == 0;
  }

  /** Reading digits at p in `base`, with `stop` where reading ends if there are none, gives what the subject
      sequence at i denotes and where it ends. */
  ghost predicate Agrees(s: seq<Char>, i: nat, radix: nat, p: nat, base: nat, stop: nat)
    requires i <= |s| && p <= |s| && radix != 1 && radix <= 36 && base <= 36
  {
    var (start, b) := Subject(s, i, radix);
    var e, end := RunEnd(s, p, base), RunEnd(s, start, b);
    && Value(s[p..e], base) == Value(s[start..end], b)
    && (if e == p then stop else e) == (if end == start then 0 else end)
  }

  /** A leading zero and the prefix. */
  method SkipPrefix(s: seq<Char>, i: nat, radix: nat) returns (p: nat, base: nat, stop: nat)
    requires i < |s| && 0 in s[i..] && radix != 1 && radix <= 36
    ensures p < |s| && 0 in s[p..] && 2 <= base <= 36
    ensures Agrees(s, i, radix, p, base, stop)
  {
    hide RunEnd, Value, Agrees;
    ghost var z :| 0 <= z < |s[i..]| && s[i..][z] == 0;
    p, base, stop := i, radix, 0;
    if s[p] == 48 {
      p := p + 1;
      stop := p;
      if base == 16 && (s[p] == 88 || s[p] == 120) {
        p := p + 1;
        PrefixAgrees(s, i, radix, 16);
      } else if base == 2 && (s[p] == 66 || s[p] == 98) {
        p := p + 1;
        PrefixAgrees(s, i, radix, 2);
      } else if base == 0 {
        if s[p] == 88 || s[p] == 120 {
          base, p := 16, p + 1;
          PrefixAgrees(s, i, radix, 16);
        } else if s[p] == 66 || s[p] == 98 {
          base, p := 2, p + 1;
          PrefixAgrees(s, i, radix, 2);
        } else {
          base := 8;
          ZeroAgrees(s, i, radix, base);
        }
      } else {
        ZeroAgrees(s, i, radix, base);
      }
    } else {
      if base == 0 {
        base := 10;
      }
      PlainAgrees(s, i, radix, base);
    }
    assert s[p..][z + i - p] == 0;
  }

  predicate PrefixLetter(c: Char, base: nat) {
    (base == 16 && (c == 88 || c == 120)) || (base == 2 && (c == 66 || c == 98))
  }

  /** A prefix, whether or not digits of its base follow. */
  lemma PrefixAgrees(s: seq<Char>, i: nat, radix: nat, base: nat)
    requires i + 2 < |s| && s[i] == 48 && PrefixLetter(s[i + 1], base) && (radix == 0 || radix == base)
    ensures Agrees(s, i, radix, i + 2, base, i + 1)
  {
    hide RunEnd, Value, IsDigit;
    var b := if radix == 0 then 8 else radix;
    LetterIs(s[i + 1], base);
    ZeroThen(s, i, b, base);
  }

  lemma LetterIs(c: Char, base: nat)
    requires PrefixLetter(c, base)
    ensures !IsDigit(c, base) && !IsDigit(c, 8)
  {
  }

  /** A leading zero without a prefix. */
  lemma ZeroAgrees(s: seq<Char>, i: nat, radix: nat, base: nat)
    requires i + 1 < |s| && s[i] == 48 && radix != 1 && radix <= 36 && base == (if radix == 0 then 8 else radix)
    requires (radix == 0 || radix == 16) ==> !PrefixLetter(s[i + 1], 16)
    requires (radix == 0 || radix == 2) ==> !PrefixLetter(s[i + 1], 2)
    ensures Agrees(s, i, radix, i + 1, base, i + 1)
  {
    hide RunEnd, Value, IsDigit;
    LeadingZero(s, i, base);
  }

  /** No leading zero. */
  lemma PlainAgrees(s: seq<Char>, i: nat, radix: nat, base: nat)
    requires i < |s| && s[i] != 48 && radix != 1 && radix <= 36 && base == (if radix == 0 then 10 else radix)
    ensures Agrees(s, i, radix, i, base, 0)
  {
    hide RunEnd, Value, IsDigit;
  }

  /** A zero that no digit follows, with what may be digits after the character behind it. */
  lemma ZeroThen(s: seq<Char>, i: nat, base: nat, other: nat)
    requires i + 2 < |s| && s[i] == 48 && !IsDigit(s[i + 1], base) && 0 < base <= 36 && other <= 36
    ensures RunEnd(s, i, base) == i + 1 && Value(s[i..i + 1], base) == 0 == Value(s[i + 2..i + 2], other)
    ensures RunEnd(s, i + 2, other) == i + 2 <==> !IsDigit(At(s, i + 2), other)
  {
    assert s[i..i + 1] == [48];
    assert Value([48], base) == Value([48][..0], base) * base + 0;
  }

  lemma {:induction false} LeadingZero(s: seq<Char>, i: nat, base: nat)
    requires i < |s| && s[i] == 48 && 0 < base <= 36
    ensures RunEnd(s, i, base) == RunEnd(s, i + 1, base)
    ensures var e := RunEnd(s, i, base); Value(s[i..e], base) == Value(s[i + 1..e], base)
  {
    var e := RunEnd(s, i + 1, base);
    assert s[i..e] == [48] + s[i + 1..e];
    ZeroAhead(s[i + 1..e], base);
  }

  lemma {:induction false} ZeroAhead(digits: seq<Char>, base: nat)
    ensures Value([48] + digits, base) == Value(digits, base)
    decreases |digits|
  {
    if digits == [] {
      assert Value([48], base) == Value([48][..0], base) * base + 0;
      assert [48] + digits == [48];
    } else {
      var k := |digits| - 1;
      ZeroAhead(digits[..k], base);
      assert ([48] + digits)[..k + 1] == [48] + digits[..k];
    }
  }

  /** The digit of a character as the loop computes it; None leaves the loop. */
  function LoopDigit(c: Char): Option<int> {
    if c >= 65 then Some(ClearCase(c - 65) + 10)
    else if c <= 57 then Some(c - 48)
    else None
  }

  lemma LoopDigitIs(c: Char, base: nat)
    requires base <= 36
    ensures (LoopDigit(c).Some? && 0 <= LoopDigit(c).value < base) <==> IsDigit(c, base)
    ensures IsDigit(c, base) ==> LoopDigit(c).value == DigitOf(c)
  {
  }

  lemma ValueNext(s: seq<Char>, p: nat, q: nat, base: nat)
    requires p <= q < |s|
    ensures Value(s[p..q + 1], base) == Value(s[p..q], base) * base + DigitOf(s[q])
  {
    assert s[p..q + 1][..q - p] == s[p..q];
  }

  /** More digits never make a smaller number. */
  lemma {:induction false} ValueGrows(s: seq<Char>, p: nat, q: nat, r: nat, base: nat)
    requires p <= q <= r <= |s| && base > 0
    ensures Value(s[p..q], base) <= Value(s[p..r], base)
    decreases r - q
  {
    if q < r {
      ValueGrows(s, p, q, r - 1, base);
      ValueNext(s, p, r - 1, base);
      Times(Value(s[p..r - 1], base), base);
    }
  }

  lemma Times(v: nat, base: nat)
    requires base > 0
    ensures v <= v * base
  {
  }

  lemma NoDigits(s: seq<Char>, p: nat, base: nat)
    requires p <= |s|
    ensures Value(s[p..p], base) == 0
  {
  }

  lemma RunStep(s: seq<Char>, q: nat, base: nat)
    requires q < |s| && base <= 36
    ensures RunEnd(s, q, base) == if IsDigit(s[q], base) then RunEnd(s, q + 1, base) else q
    ensures IsDigit(s[q], base) ==> s[q] != 0
  {
  }

  /** The limit the next digit may reach, as the quotient and remainder of the loop test it. */
  lemma CutoffIs(n: nat, c: nat, limit: nat, base: nat)
    requires c < base
    ensures (n > limit / base || (n == limit / base && c > limit % base)) <==> n * base + c > limit
  {
    var q, r := limit / base, limit % base;
    assert limit == q * base + r;
    if n > q {
      assert n * base == q * base + (n - q) * base;
      Times(base, n - q);
    } else if n < q {
      assert q * base == n * base + (q - n) * base;
      Times(base, q - n);
    }
  }

  /** n * base + c as an unsigned long. */
  function AddDigit(n: nat, base: nat, c: nat, half: nat): nat
    requires half > 0
  {
    (n * base + c) % (2 * half)
  }

  lemma DigitStep(s: seq<Char>, p: nat, q: nat, base: nat, n: nat, limit: nat, half: nat)
    requires p <= q < |s| && IsDigit(s[q], base) && n == Value(s[p..q], base) && limit <= half && half > 0
    ensures var c := DigitOf(s[q]); var v := Value(s[p..q + 1], base);
            && (n > limit / base || (n == limit / base && c > limit % base) <==> v > limit)
            && (v <= limit ==> AddDigit(n, base, c, half) == v)
  {
    hide Value, DigitOf, AddDigit;
    var c := DigitOf(s[q]);
    ValueNext(s, p, q, base);
    CutoffIs(n, c, limit, base);
    AddDigitIs(n, base, c, half);
  }

  lemma AddDigitIs(n: nat, base: nat, c: nat, half: nat)
    requires half > 0
    ensures n * base + c <= half ==> AddDigit(n, base, c, half) == n * base + c
  {
    var x := n * base + c;
    if x <= half {
      Below(x, 2 * half);
    }
  }

  lemma Below(x: nat, m: nat)
    requires x < m
    ensures x % m == x
  {
  }

  /** The digit loop.  The accumulator is an unsigned long; it never wraps. */
  method Digits(s: seq<Char>, p: nat, base: nat, negative: bool, stop: nat, wantEnd: bool, half: nat)
    returns (n: nat, over: bool, end: nat)
    requires p < |s| && 0 in s[p..] && 2 <= base <= 36
    requires half == 0x8000_0000 || half == 0x8000_0000_0000_0000
    ensures var e := RunEnd(s, p, base); var v := Value(s[p..e], base);
            && (over <==> v > if negative then half else half - 1)
            && (!over ==> n == v)
            && (wantEnd ==> end == if e == p then stop else e)
  {
    hide RunEnd, Value, DigitOf, LoopDigit, AddDigit;
    ghost var z :| 0 <= z < |s[p..]| && s[p..][z] == 0;
    ghost var e := RunEnd(s, p, base);
    ghost var limit := if negative then half else half - 1;
    var cutoff, cutlim := (if negative then half else half - 1) / base, (if negative then half else half - 1) % base;
    n, over, end := 0, false, stop;
    var q := p;
    NoDigits(s, p, base);
    while true
      invariant p <= q <= p + z && RunEnd(s, q, base) == e
      invariant end == if q == p then stop else q
      invariant !over ==> n == Value(s[p..q], base) <= limit
      invariant over ==> Value(s[p..q], base) > limit
      decreases p + z - q
    {
      LoopDigitIs(s[q], base);
      RunStep(s, q, base);
      if LoopDigit(s[q]).None? { break; }
      var c := LoopDigit(s[q]).value;
      if c < 0 || c >= base { break; }
      ValueGrows(s, p, q, q + 1, base);
      if !over { DigitStep(s, p, q, base, n, limit, half); }
      q := q + 1;
      end := q;
      if over {
        if wantEnd { continue; }
        break;
      }
      if n > cutoff || (n == cutoff && c > cutlim) {
        over := true;
        continue;
      }
      n := AddDigit(n, base, c, half);
    }
    ValueGrows(s, p, q, e, base);
  }

  // ---------------------------------------------------------------- the printer

  /** rt_to_char. */
  function DigitChar(value: nat, base: nat): Char
    requires 2 <= base <= 16
  {
    var d := value % base;
    if d < 10 then 48 + d else 55 + d
  }

  /** The numeral of a value, most significant digit first. */
  function Numeral(value: nat, base: nat): (t: seq<Char>)
    requires 2 <= base <= 16
    ensures |t| > 0
    decreases value
  {
    (if value < base then [] else Numeral(value / base, base)) + [DigitChar(value, base)]
  }

  /** The digits in the order the loop finds them. */
  function Backward(value: nat, base: nat): (t: seq<Char>)
    requires 2 <= base <= 16
    ensures |t| > 0
    decreases value
  {
    [DigitChar(value, base)] + (if value < base then [] else Backward(value / base, base))
  }

  lemma {:induction false} BackwardIs(value: nat, base: nat)
    requires 2 <= base <= 16
    ensures |Backward(value, base)| == |Numeral(value, base)|
    ensures forall k :: 0 <= k < |Numeral(value, base)| ==>
              Numeral(value, base)[k] == Backward(value, base)[|Numeral(value, base)| - 1 - k]
    decreases value
  {
    hide DigitChar;
    if value >= base {
      BackwardIs(value / base, base);
    }
  }

  /** rt_to_string: the digits are written backwards and then reversed in place. */
  method ToString(str: array?<Char>, value: nat, radix: int) returns (ok: bool)
    requires value < 0x1_0000_0000_0000_0000
    requires str != null && 2 <= radix <= 16 ==> |Numeral(value, radix)| < str.Length
    modifies str
    ensures ok <==> str != null && 2 <= radix <= 16
    ensures ok ==> str[..|Numeral(value, radix)| + 1] == Numeral(value, radix) + [0]
    ensures ok ==> forall k :: |Numeral(value, radix)| < k < str.Length ==> str[k] == old(str[k])
    ensures !ok && str != null ==> str[..] == old(str[..])
  {
    if str == null || radix < 2 || radix > 16 { return false; }
    BackwardIs(value, radix);
    var n := WriteBackward(str, value, radix);
    str[n] := 0;
    Reverse(str, n);
    assert str[..n] == Numeral(value, radix);
    assert str[..n + 1] == str[..n] + [str[n]];
    return true;
  }

  method WriteBackward(str: array<Char>, value: nat, base: nat) returns (n: nat)
    requires 2 <= base <= 16 && |Backward(value, base)| < str.Length
    modifies str
    ensures n == |Backward(value, base)| < str.Length && str[..n] == Backward(value, base)
    ensures forall k :: n <= k < str.Length ==> str[k] == old(str[k])
  {
    hide DigitChar, Backward;
    n := 0;
    var v: nat := value;
    while true
      invariant 0 <= n && n + |Backward(v, base)| < str.Length
      invariant str[..n] + Backward(v, base) == Backward(value, base)
      invariant forall k :: n <= k < str.Length ==> str[k] == old(str[k])
      decreases v
    {
      ghost var was, v0 := str[..n], v;
      BackwardUnfold(v, base);
      str[n] := DigitChar(v, base);
      n := n + 1;
      assert str[..n] == was + [DigitChar(v, base)];
      v := v / base;
      if v == 0 { break; }
      assert was + [DigitChar(v0, base)] + Backward(v, base) == was + ([DigitChar(v0, base)] + Backward(v, base));
    }
  }

  lemma BackwardUnfold(v: nat, base: nat)
    requires 2 <= base <= 16
    ensures v / base == 0 ==> Backward(v, base) == [DigitChar(v, base)]
    ensures v / base != 0 ==> 0 < v / base < v && Backward(v, base) == [DigitChar(v, base)] + Backward(v / base, base)
  {
    hide DigitChar;
    Quotient(v, base);
  }

  lemma Quotient(v: nat, base: nat)
    requires base >= 2
    ensures v < base ==> v / base == 0
    ensures v >= base ==> 0 < v / base < v
  {
    Words.Euclid(v, base);
    MoreTimes(2, base, v / base);
  }

  lemma MoreTimes(a: nat, b: nat, base: nat)
    requires a <= b
    ensures a * base <= b * base
  {
  }

  /** The reversal of the first n characters. */
  method Reverse(str: array<Char>, n: nat)
    requires n <= str.Length
    modifies str
    ensures forall k :: 0 <= k < n ==> str[k] == old(str[n - 1 - k])
    ensures forall k :: n <= k < str.Length ==> str[k] == old(str[k])
  {
    var j := 0;
    while j < n / 2
      invariant 0 <= j <= n / 2
      invariant forall k :: 0 <= k < j ==> str[k] == old(str[n - 1 - k]) && str[n - 1 - k] == old(str[k])
      invariant forall k :: j <= k < n - j ==> str[k] == old(str[k])
      invariant forall k :: n <= k < str.Length ==> str[k] == old(str[k])
    {
      var tmp := str[j];
      str[j] := str[n - j - 1];
      str[n - j - 1] := tmp;
      j := j + 1;
    }
  }

  // ---------------------------------------------------------------- printing and parsing

  lemma DigitCharIs(value: nat, base: nat)
    requires 2 <= base <= 16
    ensures DigitOf(DigitChar(value, base)) == value % base
    ensures DigitChar(value, base) !in [0, 32, 43, 45] && (DigitChar(value, base) == 48 <==> value % base == 0)
    ensures IsDigit(DigitChar(value, base), base) && DigitChar(value, base) < 88
  {
  }

  lemma NumeralUnfold(value: nat, base: nat)
    requires 2 <= base <= 16
    ensures var t := Numeral(value, base);
            && t == (if value < base then [] else Numeral(value / base, base)) + [DigitChar(value, base)]
            && Value(t, base) == Value(t[..|t| - 1], base) * base + DigitOf(DigitChar(value, base))
    ensures Value([], base) == 0
  {
    hide DigitChar, DigitOf;
  }

  lemma {:induction false} NumeralValue(value: nat, base: nat)
    requires 2 <= base <= 16
    ensures Value(Numeral(value, base), base) == value
    decreases value
  {
    hide DigitChar, DigitOf, Numeral, Value;
    DigitCharIs(value, base);
    NumeralUnfold(value, base);
    var t := Numeral(value, base);
    if value >= base {
      NumeralValue(value / base, base);
      assert t[..|t| - 1] == Numeral(value / base, base);
    } else {
      assert t[..|t| - 1] == [];
      Words.DivIs(value, base, 0, value);
    }
    Words.Euclid(value, base);
  }

  /** Every character of a numeral is a digit of its base; the first is zero only in the numeral of zero. */
  lemma {:induction false} NumeralDigits(value: nat, base: nat)
    requires 2 <= base <= 16
    ensures forall k :: 0 <= k < |Numeral(value, base)| ==> IsDigit(Numeral(value, base)[k], base)
    ensures Numeral(value, base)[0] !in [0, 32, 43, 45]
    ensures Numeral(value, base)[0] == 48 ==> |Numeral(value, base)| == 1
    decreases value
  {
    hide DigitChar, IsDigit, Numeral;
    DigitCharIs(value, base);
    NumeralParts(value, base);
    if value >= base {
      NumeralDigits(value / base, base);
      var t := Numeral(value / base, base);
      assert value / base > 0;
      if t[0] == 48 { NumeralZero(value / base, base); }
    }
  }

  lemma NumeralParts(value: nat, base: nat)
    requires 2 <= base <= 16
    ensures Numeral(value, base)
      == (if value < base then [] else Numeral(value / base, base)) + [DigitChar(value, base)]
    ensures value >= base ==> value / base > 0
  {
    Quotient(value, base);
    hide DigitChar;
  }

  lemma {:induction false} NumeralZero(value: nat, base: nat)
    requires 2 <= base <= 16
    ensures Numeral(value, base) == [48] ==> value == 0
  {
    hide DigitChar;
    DigitCharIs(value, base);
    if value >= base {
      assert |Numeral(value, base)| == |Numeral(value / base, base)| + 1;
    } else {
      assert Numeral(value, base)[0] == DigitChar(value, base);
    }
  }

  lemma {:induction false} RunOver(s: seq<Char>, i: nat, n: nat, base: nat)
    requires i <= n < |s| && base <= 36 && !IsDigit(s[n], base)
    requires forall k :: i <= k < n ==> IsDigit(s[k], base)
    ensures RunEnd(s, i, base) == n
    decreases n - i
  {
    hide IsDigit;
    if i < n {
      RunOver(s, i + 1, n, base);
    }
  }

  /** Parsing what rt_to_string prints gives the value back, or the largest long, and reads all of it. */
  lemma PrintThenParse(value: nat, base: nat, half: nat)
    requires 2 <= base <= 16 && half > 0
    ensures Reading(Numeral(value, base) + [0], base, half) == if value < half then value else half - 1
    ensures Stop(Numeral(value, base) + [0], base) == |Numeral(value, base)|
  {
    hide Numeral, Value, RunEnd, IsDigit;
    var t := Numeral(value, base);
    var s := t + [0];
    NumeralDigits(value, base);
    NumeralValue(value, base);
    NotDigit(base);
    RunOver(s, 0, |t|, base);
    assert s[0..|t|] == t;
  }

  lemma NotDigit(base: nat)
    requires base <= 36
    ensures !IsDigit(0, base) && (base == 16 ==> !IsDigit(88, 16) && !IsDigit(120, 16))
  {
  }

  // ---------------------------------------------------------------- what texts read as

  /** The letter of a digit. */
  function Letter(d: nat): Char
    requires d < 36
  {
    if d < 10 then '0' as int + d else 'A' as int + (d - 10)
  }

  /** A value written in a base up to 36, most significant digit first. */
  function Spell(value: nat, base: nat): (t: seq<Char>)
    requires 2 <= base <= 36
    ensures |t| > 0
    decreases value
  {
    Words.Euclid(value, base);
    Quotient(value, base);
    (if value < base then [] else Spell(value / base, base)) + [Letter(value % base)]
  }

  /** The small form of a capital letter. */
  function Small(c: Char): Char {
    if 'A' as int <= c <= 'Z' as int then c + 32 else c
  }

  /** Texts that differ in case only. */
  predicate SameButCase(s: seq<Char>, t: seq<Char>) {
    |s| == |t| && forall i :: 0 <= i < |s| ==> Small(s[i]) == Small(t[i])
  }

  /** c is the letter of no digit of the base. */
  predicate Ends(c: Char, base: nat)
    requires base <= 36
  {
    forall d :: 0 <= d < base ==> Small(c) != Small(Letter(d))
  }

  datatype Sign = Unsigned | Plus | Minus

  function SignText(sign: Sign): seq<Char> {
    match sign
    case Unsigned => []
    case Plus => ['+' as int]
    case Minus => ['-' as int]
  }

  datatype Prefix = Bare | Zero | ZeroX | ZeroB

  function PrefixText(prefix: Prefix): seq<Char> {
    match prefix
    case Bare => []
    case Zero => ['0' as int]
    case ZeroX => ['0' as int, 'x' as int]
    case ZeroB => ['0' as int, 'b' as int]
  }

  /** The prefix may be written for this radix. */
  predicate Allowed(prefix: Prefix, radix: nat) {
    && radix != 1 && radix <= 36
    && (prefix == ZeroX ==> radix == 0 || radix == 16)
    && (prefix == ZeroB ==> radix == 0 || radix == 2)
  }

  /** The base that a prefix and a radix stand for; a zero standing alone is octal. */
  function BaseFor(prefix: Prefix, radix: nat, value: nat): (base: nat)
    requires Allowed(prefix, radix)
    ensures 2 <= base <= 36
  {
    match prefix
    case Bare => if radix != 0 then radix else if value == 0 then 8 else 10
    case Zero => if radix == 0 then 8 else radix
    case ZeroX => 16
    case ZeroB => 2
  }

  /** A value with its sign, clamped to a long. */
  function AsLong(sign: Sign, value: nat, half: nat): int {
    if sign == Minus then (if value > half then 0 - half else 0 - value)
    else if value >= half then half - 1 else value
  }

  /** A text of n spaces, a sign, a prefix, and what follows. */
  function Written(n: nat, sign: Sign, prefix: Prefix, rest: seq<Char>): seq<Char> {
    seq(n, _ => ' ' as int) + SignText(sign) + PrefixText(prefix) + rest
  }

  /** Where what follows starts. */
  function Ahead(n: nat, sign: Sign, prefix: Prefix): nat {
    n + |SignText(sign)| + |PrefixText(prefix)|
  }

  lemma SmallDigit(c: Char, e: Char)
    requires Small(c) == Small(e)
    ensures DigitOf(c) == DigitOf(e)
    ensures forall k: Char :: k in [32, 43, 45, 48] ==> (c == k <==> e == k)
    ensures (c == 88 || c == 120) <==> (e == 88 || e == 120)
    ensures (c == 66 || c == 98) <==> (e == 66 || e == 98)
  {
  }

  /** Capital and small letters read the same, wherever they stand. */
  lemma CaseLess(s: seq<Char>, t: seq<Char>, radix: nat, half: nat)
    requires SameButCase(s, t) && radix != 1 && radix <= 36
    ensures Reading(s, radix, half) == Reading(t, radix, half)
    ensures Stop(s, radix) == Stop(t, radix)
  {
    var i := SkipSpaces(s, 0);
    SpacesSame(s, t, 0);
    AtSame(s, t, i);
    var k := if At(s, i) == 43 || At(s, i) == 45 then i + 1 else i;
    SubjectSame(s, t, k, radix);
    var (start, base) := Subject(s, k, radix);
    hide SkipSpaces, Subject, At, Value, RunEnd;
    RunSame(s, t, start, base);
    ValueSame(s, t, start, RunEnd(s, start, base), base);
  }

  lemma AtSame(s: seq<Char>, t: seq<Char>, i: nat)
    requires SameButCase(s, t)
    ensures DigitOf(At(s, i)) == DigitOf(At(t, i))
    ensures forall k: Char :: k in [32, 43, 45, 48] ==> (At(s, i) == k <==> At(t, i) == k)
    ensures (At(s, i) == 88 || At(s, i) == 120) <==> (At(t, i) == 88 || At(t, i) == 120)
    ensures (At(s, i) == 66 || At(s, i) == 98) <==> (At(t, i) == 66 || At(t, i) == 98)
  {
    hide DigitOf, Small;
    if i < |s| { SmallDigit(s[i], t[i]); }
  }

  lemma {:induction false} SpacesSame(s: seq<Char>, t: seq<Char>, i: nat)
    requires SameButCase(s, t) && i <= |s|
    ensures SkipSpaces(s, i) == SkipSpaces(t, i)
    decreases |s| - i
  {
    hide At, DigitOf, Small, SameButCase;
    AtSame(s, t, i);
    assert 32 in [32, 43, 45, 48];
    if At(s, i) == 32 {
      AtSpace(s, i);
      SameLength(s, t);
      SpacesSame(s, t, i + 1);
    }
  }

  lemma AtSpace(s: seq<Char>, i: nat)
    requires At(s, i) == 32
    ensures i < |s|
  {
  }

  lemma SameLength(s: seq<Char>, t: seq<Char>)
    requires SameButCase(s, t)
    ensures |s| == |t|
  {
  }

  lemma SubjectSame(s: seq<Char>, t: seq<Char>, i: nat, radix: nat)
    requires SameButCase(s, t) && i <= |s| && radix != 1 && radix <= 36
    ensures Subject(s, i, radix) == Subject(t, i, radix)
  {
    AtSame(s, t, i);
    AtSame(s, t, i + 1);
    AtSame(s, t, i + 2);
    assert 48 in [32, 43, 45, 48];
    hide At, DigitOf, Small;
  }

  lemma {:induction false} RunSame(s: seq<Char>, t: seq<Char>, i: nat, base: nat)
    requires SameButCase(s, t) && i <= |s| && base <= 36
    ensures RunEnd(s, i, base) == RunEnd(t, i, base)
    decreases |s| - i
  {
    AtSame(s, t, i);
    hide DigitOf, Small;
    if i < |s| && IsDigit(s[i], base) {
      RunSame(s, t, i + 1, base);
    }
  }

  lemma {:induction false} ValueSame(s: seq<Char>, t: seq<Char>, i: nat, j: nat, base: nat)
    requires SameButCase(s, t) && i <= j <= |s|
    ensures Value(s[i..j], base) == Value(t[i..j], base)
    decreases j - i
  {
    hide Value, DigitOf, Small, SameButCase;
    SameLength(s, t);
    if i < j {
      ValueSame(s, t, i, j - 1, base);
      AtSame(s, t, j - 1);
      AtIs(s, j - 1);
      AtIs(t, j - 1);
      hide At;
      ValueNext(s, i, j - 1, base);
      ValueNext(t, i, j - 1, base);
    } else {
      NoDigits(s, i, base);
      NoDigits(t, i, base);
    }
  }

  lemma AtIs(s: seq<Char>, i: nat)
    requires i < |s|
    ensures At(s, i) == s[i]
  {
  }

  lemma LetterDigit(d: nat)
    requires d < 36
    ensures DigitOf(Letter(d)) == d && Letter(d) !in [32, 43, 45] && (Letter(d) == 48 <==> d == 0)
    ensures d < 16 ==> Letter(d) !in [88, 120]
    ensures d < 10 ==> Letter(d) !in [88, 120, 66, 98]
  {
  }

  /** A character that ends the digits of a base is no digit of it. */
  lemma EndsIs(c: Char, base: nat)
    requires base <= 36
    ensures Ends(c, base) <==> !IsDigit(c, base)
  {
    if IsDigit(c, base) {
      SmallLetter(c);
    }
    if !Ends(c, base) {
      var d :| 0 <= d < base && Small(c) == Small(Letter(d));
      SmallDigit(c, Letter(d));
      LetterDigit(d);
    }
  }

  lemma SmallLetter(c: Char)
    requires DigitOf(c) < 36
    ensures Small(c) == Small(Letter(DigitOf(c)))
  {
  }

  lemma SpellParts(value: nat, base: nat)
    requires 2 <= base <= 36
    ensures value % base < base
    ensures Spell(value, base) == (if value < base then [] else Spell(value / base, base)) + [Letter(value % base)]
    ensures value >= base ==> 0 < value / base < value
    ensures value < base ==> value / base == 0
  {
    Words.Euclid(value, base);
    Quotient(value, base);
    hide Letter;
  }

  /** Digits all through; the first is zero only in the spelling of zero. */
  lemma {:induction false} SpellDigits(value: nat, base: nat)
    requires 2 <= base <= 36
    ensures forall k :: 0 <= k < |Spell(value, base)| ==> IsDigit(Spell(value, base)[k], base)
    ensures IsLetter(Spell(value, base)[0], base)
    ensures Spell(value, base)[0] == 48 ==> value == 0 && Spell(value, base) == [48]
    decreases value
  {
    SpellParts(value, base);
    LetterDigit(value % base);
    hide Spell, Letter, DigitOf;
    if value >= base {
      SpellDigits(value / base, base);
    }
  }

  /** The letter of some digit of the base. */
  ghost predicate IsLetter(c: Char, base: nat)
    requires base <= 36
  {
    exists d :: 0 <= d < base && c == Letter(d)
  }

  lemma LetterOf(c: Char, base: nat)
    requires base <= 36 && IsLetter(c, base)
    ensures c !in [32, 43, 45] && IsDigit(c, base)
    ensures base <= 16 ==> c !in [88, 120]
    ensures base <= 10 ==> c !in [88, 120, 66, 98]
  {
    var d :| 0 <= d < base && c == Letter(d);
    LetterDigit(d);
  }

  lemma {:induction false} SpellValue(value: nat, base: nat)
    requires 2 <= base <= 36
    ensures Value(Spell(value, base), base) == value
    decreases value
  {
    SpellParts(value, base);
    LetterDigit(value % base);
    Words.Euclid(value, base);
    hide Spell, Letter, DigitOf;
    var t := Spell(value, base);
    ValueLast(t, base);
    if value >= base {
      SpellValue(value / base, base);
      assert t[..|t| - 1] == Spell(value / base, base);
    } else {
      assert t[..|t| - 1] == [];
      Words.DivIs(value, base, 0, value);
      NoValue(base);
    }
  }

  lemma ValueLast(t: seq<Char>, base: nat)
    requires t != []
    ensures Value(t, base) == Value(t[..|t| - 1], base) * base + DigitOf(t[|t| - 1])
  {
  }

  lemma NoValue(base: nat)
    ensures Value([], base) == 0
  {
  }

  /** The printer writes what the value is spelled like. */
  lemma {:induction false} PrintsSpelling(value: nat, base: nat)
    requires 2 <= base <= 16
    ensures Numeral(value, base) == Spell(value, base)
    decreases value
  {
    SpellParts(value, base);
    NumeralParts(value, base);
    SameLetter(value, base);
    hide Spell, Numeral, Letter, DigitChar;
    if value >= base {
      PrintsSpelling(value / base, base);
    }
  }

  lemma SameLetter(value: nat, base: nat)
    requires 2 <= base <= 16
    ensures value % base < 36 && DigitChar(value, base) == Letter(value % base)
  {
    Words.Euclid(value, base);
  }

  lemma {:induction false} SkipAll(s: seq<Char>, i: nat, n: nat)
    requires i <= n <= |s| && At(s, n) != 32 && forall k :: i <= k < n ==> s[k] == 32
    ensures SkipSpaces(s, i) == n
    decreases n - i
  {
    if i < n {
      SkipAll(s, i + 1, n);
    }
  }

  /** The parts of such a text. */
  lemma WrittenParts(n: nat, sign: Sign, prefix: Prefix, rest: seq<Char>)
    ensures var s, k := Written(n, sign, prefix, rest), n + |SignText(sign)|;
      && |s| == Ahead(n, sign, prefix) + |rest|
      && (forall j :: 0 <= j < n ==> s[j] == 32)
      && (sign == Plus ==> At(s, n) == 43) && (sign == Minus ==> At(s, n) == 45)
      && (prefix != Bare ==> At(s, k) == 48)
      && (prefix == ZeroX ==> At(s, k + 1) == 120) && (prefix == ZeroB ==> At(s, k + 1) == 98)
      && s[Ahead(n, sign, prefix)..] == rest
  {
  }

  /** Reading such a text starts at its prefix. */
  lemma FormIs(n: nat, sign: Sign, prefix: Prefix, rest: seq<Char>, radix: nat)
    requires radix != 1 && radix <= 36
    requires sign == Unsigned && prefix == Bare ==> rest == [] || rest[0] !in [32, 43, 45]
    requires rest != []
    ensures var s, k := Written(n, sign, prefix, rest), n + |SignText(sign)|;
      && k <= |s| && Form(s, radix) == (sign == Minus, Subject(s, k, radix).0, Subject(s, k, radix).1)
  {
    var s, k := Written(n, sign, prefix, rest), n + |SignText(sign)|;
    WrittenParts(n, sign, prefix, rest);
    if sign == Unsigned && prefix == Bare { assert s[Ahead(n, sign, prefix)..][0] == rest[0]; }
    hide Written, Subject;
    SkipAll(s, 0, n);
    hide SkipSpaces;
  }

  /** A zero that no prefix letter follows. */
  lemma BareZero(s: seq<Char>, i: nat)
    requires i + 1 < |s| && s[i + 1] !in [88, 120, 66, 98]
    ensures !HasPrefix(s, i, 88, 120, 16) && !HasPrefix(s, i, 66, 98, 2)
  {
  }

  /** What follows the prefix starts with t and goes on with a character that is no digit of the base. */
  ghost predicate Leads(rest: seq<Char>, t: seq<Char>, base: nat) {
    && 0 < |t| < |rest| && rest[..|t|] == t
    && (forall k :: 0 <= k < |t| ==> IsDigit(t[k], base)) && !IsDigit(rest[|t|], base)
  }

  /** What follows the prefix is read in this base. */
  ghost predicate ReadIn(prefix: Prefix, radix: nat, base: nat, rest: seq<Char>) {
    && |rest| > 1 && 2 <= base <= 36 && IsDigit(rest[0], base) && rest[0] !in [32, 43, 45]
    && (base <= 16 ==> rest[0] !in [88, 120]) && (base <= 10 ==> rest[0] !in [66, 98])
    && (prefix == Bare && rest[0] == 48 ==> rest[1] !in [88, 120, 66, 98])
    && base == match prefix
       case Bare => if radix != 0 then radix else if rest[0] == 48 then 8 else 10
       case Zero => if radix == 0 then 8 else radix
       case ZeroX => 16
       case ZeroB => 2
  }

  /** A spelling does both. */
  lemma SpellLeads(value: nat, prefix: Prefix, radix: nat, tail: seq<Char>)
    requires Allowed(prefix, radix) && tail != [] && Ends(tail[0], BaseFor(prefix, radix, value))
    requires prefix == Bare && value == 0 ==> Small(tail[0]) !in ['x' as int, 'b' as int]
    ensures var base := BaseFor(prefix, radix, value);
      var t := Spell(value, base);
      Leads(t + tail, t, base) && ReadIn(prefix, radix, base, t + tail)
  {
    var base := BaseFor(prefix, radix, value);
    var t := Spell(value, base);
    SpellDigits(value, base);
    LetterOf(t[0], base);
    EndsIs(tail[0], base);
    SpellZero(base);
    Letters(tail[0]);
    hide Spell, IsDigit, Ends, Small, IsLetter;
    assert (t + tail)[0] == t[0] && (t + tail)[|t|] == tail[0] && (t + tail)[..|t|] == t;
  }

  lemma SpellZero(base: nat)
    requires 2 <= base <= 36
    ensures Spell(0, base) == [48]
  {
  }

  lemma Letters(c: Char)
    ensures Small(c) !in ['x' as int, 'b' as int] <==> c !in [88, 120, 66, 98]
  {
  }

  /** The digits of such a text are what follows the prefix; without x or b they start at the zero itself. */
  lemma SubjectIs(n: nat, sign: Sign, prefix: Prefix, rest: seq<Char>, radix: nat, base: nat)
    requires Allowed(prefix, radix) && ReadIn(prefix, radix, base, rest)
    ensures var s, k := Written(n, sign, prefix, rest), n + |SignText(sign)|;
      k <= |s| && Subject(s, k, radix) == (if prefix == Zero then k else Ahead(n, sign, prefix), base)
  {
    var s, a := Written(n, sign, prefix, rest), Ahead(n, sign, prefix);
    WrittenParts(n, sign, prefix, rest);
    hide Written, IsDigit;
    assert s[a] == s[a..][0] == rest[0] && s[a + 1] == s[a..][1] == rest[1];
    if prefix == Bare && rest[0] == 48 {
      BareZero(s, a);
      hide HasPrefix;
    }
  }

  /** Digits up to a character that is none. */
  lemma RunOfDigits(s: seq<Char>, a: nat, rest: seq<Char>, t: seq<Char>, base: nat)
    requires a <= |s| && s[a..] == rest && Leads(rest, t, base) && base <= 36
    ensures a + |t| <= |s| && RunEnd(s, a, base) == a + |t| && s[a..a + |t|] == t
  {
    hide IsDigit, RunEnd;
    assert s[a..a + |t|] == rest[..|t|];
    assert s[a + |t|] == rest[|t|];
    forall k | a <= k < a + |t|
      ensures IsDigit(s[k], base)
    {
      assert s[k] == rest[k - a] == rest[..|t|][k - a] == t[k - a];
    }
    RunOver(s, a, a + |t|, base);
  }

  /** Reading such a text reads the digits it leads with. */
  lemma ReadsLeading(n: nat, sign: Sign, prefix: Prefix, rest: seq<Char>, t: seq<Char>, radix: nat, base: nat,
                     half: nat)
    requires Allowed(prefix, radix) && ReadIn(prefix, radix, base, rest) && Leads(rest, t, base)
    ensures var s := Written(n, sign, prefix, rest);
      && Reading(s, radix, half) == Clamp(Signed(Value(t, base), sign == Minus), half)
      && Stop(s, radix) == Ahead(n, sign, prefix) + |t|
  {
    var s, k := Written(n, sign, prefix, rest), n + |SignText(sign)|;
    hide *;
    ReadInParts(prefix, radix, base, rest);
    AheadIs(n, sign, prefix, rest, t, base);
    FormIs(n, sign, prefix, rest, radix);
    SubjectIs(n, sign, prefix, rest, radix, base);
    RunOfDigits(s, Ahead(n, sign, prefix), rest, t, base);
    if prefix == Zero {
      LeadingZero(s, k, base);
    }
    ReadingUnfold(s, radix, half);
  }

  lemma ReadInParts(prefix: Prefix, radix: nat, base: nat, rest: seq<Char>)
    requires Allowed(prefix, radix) && ReadIn(prefix, radix, base, rest)
    ensures rest != [] && rest[0] !in [32, 43, 45] && 2 <= base <= 36 && radix != 1 && radix <= 36
  {
  }

  lemma AheadIs(n: nat, sign: Sign, prefix: Prefix, rest: seq<Char>, t: seq<Char>, base: nat)
    requires Leads(rest, t, base)
    ensures var s, a, k := Written(n, sign, prefix, rest), Ahead(n, sign, prefix), n + |SignText(sign)|;
      && k <= a <= |s| && s[a..] == rest && t != []
      && (prefix == Zero ==> k < |s| && s[k] == 48 && a == k + 1)
  {
    WrittenParts(n, sign, prefix, rest);
    hide Written;
  }

  /** Spaces, a sign, a prefix and the digits of a value, up to a character that ends them: the value with its sign,
      clamped to a long, and everything up to that character is read.  A bare zero must not look like a prefix. */
  lemma ReadsWritten(n: nat, sign: Sign, prefix: Prefix, value: nat, tail: seq<Char>, radix: nat, half: nat)
    requires Allowed(prefix, radix) && tail != [] && Ends(tail[0], BaseFor(prefix, radix, value)) && half > 0
    requires prefix == Bare && value == 0 ==> Small(tail[0]) !in ['x' as int, 'b' as int]
    ensures var t := Spell(value, BaseFor(prefix, radix, value));
      var s := Written(n, sign, prefix, t + tail);
      && Reading(s, radix, half) == AsLong(sign, value, half)
      && Stop(s, radix) == Ahead(n, sign, prefix) + |t|
  {
    hide *;
    var base := BaseFor(prefix, radix, value);
    SpellLeads(value, prefix, radix, tail);
    SpellValue(value, base);
    ReadsLeading(n, sign, prefix, Spell(value, base) + tail, Spell(value, base), radix, base, half);
    ClampIs(sign, value, half);
  }

  /** Without digits the value is 0 and nothing is read. */
  lemma ReadsNothing(n: nat, sign: Sign, tail: seq<Char>, radix: nat, half: nat)
    requires radix != 1 && radix <= 36 && half > 0 && tail != []
    requires Ends(tail[0], if radix == 0 then 10 else radix) && (sign == Unsigned ==> tail[0] !in [32, 43, 45])
    ensures Reading(Written(n, sign, Bare, tail), radix, half) == 0 && Stop(Written(n, sign, Bare, tail), radix) == 0
  {
    hide *;
    var s, k := Written(n, sign, Bare, tail), n + |SignText(sign)|;
    EndsIs(tail[0], if radix == 0 then 10 else radix);
    FormIs(n, sign, Bare, tail, radix);
    NoSubject(n, sign, tail, radix);
    NoDigits(s, k, Subject(s, k, radix).1);
    ReadingUnfold(s, radix, half);
    ClampIs(sign, 0, half);
    ZeroLong(sign, half);
  }

  lemma NoSubject(n: nat, sign: Sign, tail: seq<Char>, radix: nat)
    requires radix != 1 && radix <= 36 && tail != [] && !IsDigit(tail[0], if radix == 0 then 10 else radix)
    ensures var s, k := Written(n, sign, Bare, tail), n + |SignText(sign)|;
      var base := if radix == 0 then 10 else radix;
      k <= |s| && Subject(s, k, radix) == (k, base) && RunEnd(s, k, base) == k
  {
    var s, k := Written(n, sign, Bare, tail), n + |SignText(sign)|;
    WrittenParts(n, sign, Bare, tail);
    hide Written;
    assert s[k..][0] == tail[0] && s[k] == tail[0];
    RunStep(s, k, if radix == 0 then 10 else radix);
    hide RunEnd;
  }

  lemma ZeroLong(sign: Sign, half: nat)
    requires half > 0
    ensures AsLong(sign, 0, half) == 0
  {
  }

  /** A prefix that no digit of its base follows is a zero: reading stops at its letter. */
  lemma ReadsHalfPrefix(n: nat, sign: Sign, prefix: Prefix, tail: seq<Char>, radix: nat, half: nat)
    requires (prefix == ZeroX || prefix == ZeroB) && Allowed(prefix, radix) && half > 0
    requires tail != [] && Ends(tail[0], if prefix == ZeroX then 16 else 2)
    ensures Reading(Written(n, sign, prefix, tail), radix, half) == 0
    ensures Stop(Written(n, sign, prefix, tail), radix) == n + |SignText(sign)| + 1
  {
    HalfForm(n, sign, prefix, tail, radix);
    hide *;
    var s, k := Written(n, sign, prefix, tail), n + |SignText(sign)|;
    ReadingUnfold(s, radix, half);
    ClampIs(sign, 0, half);
    ZeroLong(sign, half);
  }

  lemma HalfForm(n: nat, sign: Sign, prefix: Prefix, tail: seq<Char>, radix: nat)
    requires (prefix == ZeroX || prefix == ZeroB) && Allowed(prefix, radix)
    requires tail != [] && Ends(tail[0], if prefix == ZeroX then 16 else 2)
    ensures var s, k := Written(n, sign, prefix, tail), n + |SignText(sign)|;
      var b := if radix == 0 then 8 else radix;
      && Form(s, radix) == (sign == Minus, k, b) && RunEnd(s, k, b) == k + 1 && Value(s[k..k + 1], b) == 0
  {
    var s, k := Written(n, sign, prefix, tail), n + |SignText(sign)|;
    var b := if radix == 0 then 8 else radix;
    EndsIs(tail[0], if prefix == ZeroX then 16 else 2);
    WrittenParts(n, sign, prefix, tail);
    FormIs(n, sign, prefix, tail, radix);
    hide Written, Form, Ends;
    assert s[k + 2..][0] == tail[0] && s[k + 2] == tail[0];
    HalfSubject(s, k, prefix, radix);
    hide Subject;
    ZeroThen(s, k, b, b);
    hide RunEnd, Value;
  }

  lemma HalfSubject(s: seq<Char>, k: nat, prefix: Prefix, radix: nat)
    requires (prefix == ZeroX || prefix == ZeroB) && Allowed(prefix, radix) && k + 2 < |s|
    requires s[k] == 48 && s[k + 1] == (if prefix == ZeroX then 120 else 98)
    requires !IsDigit(s[k + 2], if prefix == ZeroX then 16 else 2)
    ensures var b := if radix == 0 then 8 else radix;
      Subject(s, k, radix) == (k, b) && !IsDigit(s[k + 1], b)
  {
  }

  lemma ReadingUnfold(s: seq<Char>, radix: nat, half: nat)
    requires radix != 1 && radix <= 36
    ensures var (negative, start, base) := Form(s, radix);
      var e := RunEnd(s, start, base);
      && Reading(s, radix, half) == Clamp(Signed(Value(s[start..e], base), negative), half)
      && Stop(s, radix) == if e == start then 0 else e
  {
    hide Form, RunEnd, Value, Clamp, Signed;
  }

  lemma ClampIs(sign: Sign, value: nat, half: nat)
    requires half > 0
    ensures Clamp(Signed(value, sign == Minus), half) == AsLong(sign, value, half)
  {
  }
}
