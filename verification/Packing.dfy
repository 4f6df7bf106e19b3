/** Structures as a writer lays them out: field after field, numbers with their least significant byte first. */
module Packing {
  import opened Words
  import opened Bytes

  type U8 = v: nat | v < 0x100

  type U16 = v: nat | v < 0x1_0000

  type U32 = v: nat | v < 0x1_0000_0000

  /** The n low bytes of a number, the lowest first. */
  function Little(v: nat, n: nat): (b: seq<Byte>)
    ensures |b| == n
    decreases n
  {
    if n == 0 then [] else [v % 0x100] + Little(v / 0x100, n - 1)
  }

  lemma Two(v: U16)
    ensures Little(v, 2) == [v % 0x100, v / 0x100]
  {
    assert Little(v / 0x100, 1) == [v / 0x100] + Little(v / 0x100 / 0x100, 0);
  }

  lemma {:induction false} LittleSplits(v: nat, m: nat, n: nat, low: nat, high: nat)
    requires v == high * Power(m) + low && low < Power(m)
    ensures Little(v, m + n) == Little(low, m) + Little(high, n)
    decreases m
  {
    if m == 0 {
      assert Little(low, 0) == [];
    } else {
      ByteOff(v, m, low, high);
      LittleSplits(v / 0x100, m - 1, n, low / 0x100, high);
      assert [v % 0x100] + (Little(low / 0x100, m - 1) + Little(high, n))
        == ([v % 0x100] + Little(low / 0x100, m - 1)) + Little(high, n);
    }
  }

  /** 256 to the n. */
  function Power(n: nat): (p: nat)
    ensures p > 0
  {
    if n == 0 then 1 else 0x100 * Power(n - 1)
  }

  lemma ByteOff(v: nat, m: nat, low: nat, high: nat)
    requires m > 0 && v == high * Power(m) + low && low < Power(m)
    ensures v % 0x100 == low % 0x100 && v / 0x100 == high * Power(m - 1) + low / 0x100 && low / 0x100 < Power(m - 1)
  {
    var p := Power(m - 1);
    assert high * (0x100 * p) == (high * p) * 0x100;
    Euclid(low, 0x100);
    DivIs(v, 0x100, high * p + low / 0x100, low % 0x100);
  }

  /** Reading a field gives back the number packed there. */
  lemma Reads2(blob: seq<Byte>, at: nat, v: U16)
    requires at + 2 <= |blob| && blob[at..at + 2] == Little(v, 2)
    ensures Le2(blob, at) == v
  {
    Two(v);
    assert blob[at] == blob[at..at + 2][0] && blob[at + 1] == blob[at..at + 2][1];
    Euclid(v, 0x100);
  }

  lemma Reads4(blob: seq<Byte>, at: nat, v: U32)
    requires at + 4 <= |blob| && blob[at..at + 4] == Little(v, 4)
    ensures Le4(blob, at) == v
  {
    var low, high := v % 0x1_0000, v / 0x1_0000;
    Euclid(v, 0x1_0000);
    assert Power(1) == 0x100 && Power(2) == 0x1_0000;
    LittleSplits(v, 2, 2, low, high);
    hide Little, Le2;
    assert blob[at..at + 2] == blob[at..at + 4][..2] == Little(low, 2);
    assert blob[at + 2..at + 4] == blob[at..at + 4][2..] == Little(high, 2);
    Reads2(blob, at, low);
    Reads2(blob, at + 2, high);
  }

  lemma Reads8(blob: seq<Byte>, at: nat, v: Word)
    requires at + 8 <= |blob| && blob[at..at + 8] == Little(v, 8)
    ensures Le8(blob, at) == v
  {
    var low, high := v % 0x1_0000_0000, v / 0x1_0000_0000;
    Euclid(v, 0x1_0000_0000);
    assert Power(1) == 0x100 && Power(2) == 0x1_0000 && Power(3) == 0x100_0000 && Power(4) == 0x1_0000_0000;
    LittleSplits(v, 4, 4, low, high);
    hide Little, Le4;
    assert blob[at..at + 4] == blob[at..at + 8][..4] == Little(low, 4);
    assert blob[at + 4..at + 8] == blob[at..at + 8][4..] == Little(high, 4);
    Reads4(blob, at, low);
    Reads4(blob, at + 4, high);
  }

  // ---------------------------------------------------------------- any bytes are some fields

  /** The number these bytes are. */
  function Number(b: seq<Byte>): (v: nat)
    ensures v < Power(|b|) && Little(v, |b|) == b
    decreases |b|
  {
    if b == [] then 0
    else
      var rest := Number(b[1..]);
      NumberParts(b[0], rest, Power(|b| - 1));
      b[0] + 0x100 * rest
  }

  lemma NumberParts(low: Byte, rest: nat, p: nat)
    requires rest < p
    ensures low + 0x100 * rest < 0x100 * p
    ensures (low + 0x100 * rest) % 0x100 == low && (low + 0x100 * rest) / 0x100 == rest
  {
    DivIs(low + 0x100 * rest, 0x100, rest, low);
  }

  function Field1(b: seq<Byte>, at: nat): (v: U8)
    requires at < |b|
    ensures Little(v, 1) == b[at..at + 1]
  {
    assert Power(1) == 0x100;
    Number(b[at..at + 1])
  }

  function Field2(b: seq<Byte>, at: nat): (v: U16)
    requires at + 2 <= |b|
    ensures Little(v, 2) == b[at..at + 2]
  {
    assert Power(1) == 0x100 && Power(2) == 0x1_0000;
    Number(b[at..at + 2])
  }

  function Field4(b: seq<Byte>, at: nat): (v: U32)
    requires at + 4 <= |b|
    ensures Little(v, 4) == b[at..at + 4]
  {
    assert Power(1) == 0x100 && Power(2) == 0x1_0000 && Power(3) == 0x100_0000 && Power(4) == 0x1_0000_0000;
    Number(b[at..at + 4])
  }

  function Field8(b: seq<Byte>, at: nat): (v: Word)
    requires at + 8 <= |b|
    ensures Little(v, 8) == b[at..at + 8]
  {
    assert Power(1) == 0x100 && Power(2) == 0x1_0000 && Power(3) == 0x100_0000 && Power(4) == 0x1_0000_0000;
    assert Power(5) == 0x100_0000_0000 && Power(6) == 0x1_0000_0000_0000 && Power(7) == 0x100_0000_0000_0000;
    assert Power(8) == 0x1_0000_0000_0000_0000;
    Number(b[at..at + 8])
  }

  // ---------------------------------------------------------------- parts of a structure

  lemma SliceOfSlice(blob: seq<Byte>, at: nat, n: nat, i: nat, k: nat)
    requires at + n <= |blob| && i + k <= n
    ensures blob[at..at + n][i..i + k] == blob[at + i..at + i + k]
  {
    var whole := blob[at..at + n];
    var part, direct := whole[i..i + k], blob[at + i..at + i + k];
    forall j | 0 <= j < k
      ensures part[j] == direct[j]
    {
      assert whole[i + j] == blob[at + (i + j)];
    }
  }

  /** Where a part of a structure lies in the blob. */
  lemma Part(blob: seq<Byte>, at: nat, before: seq<Byte>, part: seq<Byte>, after: seq<Byte>)
    requires at + |before| + |part| + |after| <= |blob|
    requires blob[at..at + |before| + |part| + |after|] == before + part + after
    ensures blob[at + |before|..at + |before| + |part|] == part
  {
    SliceOfSlice(blob, at, |before| + |part| + |after|, |before|, |part|);
    assert (before + part + after)[|before|..|before| + |part|] == part;
  }
}
