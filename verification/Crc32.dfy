/**
 * The table-driven CRC-32 (private/minkernel/src/Crc32.cpp) against the bit-serial definition of section 8 of
 * RFC 1952, and what the checksum is for: equal-length messages that differ only inside four consecutive bytes
 * never share one.
 */
module Crc32 {
  // kChecksumPolys, in rows of sixteen.

  const ROW0: seq<bv32> := [
     0x0000_0000, 0x7707_3096, 0xee0e_612c, 0x9909_51ba, 0x076d_c419, 0x706a_f48f, 0xe963_a535, 0x9e64_95a3,
     0x0edb_8832, 0x79dc_b8a4, 0xe0d5_e91e, 0x97d2_d988, 0x09b6_4c2b, 0x7eb1_7cbd, 0xe7b8_2d07, 0x90bf_1d91]

  const ROW1: seq<bv32> := [
     0x1db7_1064, 0x6ab0_20f2, 0xf3b9_7148, 0x84be_41de, 0x1ada_d47d, 0x6ddd_e4eb, 0xf4d4_b551, 0x83d3_85c7,
     0x136c_9856, 0x646b_a8c0, 0xfd62_f97a, 0x8a65_c9ec, 0x1401_5c4f, 0x6306_6cd9, 0xfa0f_3d63, 0x8d08_0df5]

  const ROW2: seq<bv32> := [
     0x3b6e_20c8, 0x4c69_105e, 0xd560_41e4, 0xa267_7172, 0x3c03_e4d1, 0x4b04_d447, 0xd20d_85fd, 0xa50a_b56b,
     0x35b5_a8fa, 0x42b2_986c, 0xdbbb_c9d6, 0xacbc_f940, 0x32d8_6ce3, 0x45df_5c75, 0xdcd6_0dcf, 0xabd1_3d59]

  const ROW3: seq<bv32> := [
     0x26d9_30ac, 0x51de_003a, 0xc8d7_5180, 0xbfd0_6116, 0x21b4_f4b5, 0x56b3_c423, 0xcfba_9599, 0xb8bd_a50f,
     0x2802_b89e, 0x5f05_8808, 0xc60c_d9b2, 0xb10b_e924, 0x2f6f_7c87, 0x5868_4c11, 0xc161_1dab, 0xb666_2d3d]

  const ROW4: seq<bv32> := [
     0x76dc_4190, 0x01db_7106, 0x98d2_20bc, 0xefd5_102a, 0x71b1_8589, 0x06b6_b51f, 0x9fbf_e4a5, 0xe8b8_d433,
     0x7807_c9a2, 0x0f00_f934, 0x9609_a88e, 0xe10e_9818, 0x7f6a_0dbb, 0x086d_3d2d, 0x9164_6c97, 0xe663_5c01]

  const ROW5: seq<bv32> := [
     0x6b6b_51f4, 0x1c6c_6162, 0x8565_30d8, 0xf262_004e, 0x6c06_95ed, 0x1b01_a57b, 0x8208_f4c1, 0xf50f_c457,
     0x65b0_d9c6, 0x12b7_e950, 0x8bbe_b8ea, 0xfcb9_887c, 0x62dd_1ddf, 0x15da_2d49, 0x8cd3_7cf3, 0xfbd4_4c65]

  const ROW6: seq<bv32> := [
     0x4db2_6158, 0x3ab5_51ce, 0xa3bc_0074, 0xd4bb_30e2, 0x4adf_a541, 0x3dd8_95d7, 0xa4d1_c46d, 0xd3d6_f4fb,
     0x4369_e96a, 0x346e_d9fc, 0xad67_8846, 0xda60_b8d0, 0x4404_2d73, 0x3303_1de5, 0xaa0a_4c5f, 0xdd0d_7cc9]

  const ROW7: seq<bv32> := [
     0x5005_713c, 0x2702_41aa, 0xbe0b_1010, 0xc90c_2086, 0x5768_b525, 0x206f_85b3, 0xb966_d409, 0xce61_e49f,
     0x5ede_f90e, 0x29d9_c998, 0xb0d0_9822, 0xc7d7_a8b4, 0x59b3_3d17, 0x2eb4_0d81, 0xb7bd_5c3b, 0xc0ba_6cad]

  const ROW8: seq<bv32> := [
     0xedb8_8320, 0x9abf_b3b6, 0x03b6_e20c, 0x74b1_d29a, 0xead5_4739, 0x9dd2_77af, 0x04db_2615, 0x73dc_1683,
     0xe363_0b12, 0x9464_3b84, 0x0d6d_6a3e, 0x7a6a_5aa8, 0xe40e_cf0b, 0x9309_ff9d, 0x0a00_ae27, 0x7d07_9eb1]

  const ROW9: seq<bv32> := [
     0xf00f_9344, 0x8708_a3d2, 0x1e01_f268, 0x6906_c2fe, 0xf762_575d, 0x8065_67cb, 0x196c_3671, 0x6e6b_06e7,
     0xfed4_1b76, 0x89d3_2be0, 0x10da_7a5a, 0x67dd_4acc, 0xf9b9_df6f, 0x8ebe_eff9, 0x17b7_be43, 0x60b0_8ed5]

  const ROWA: seq<bv32> := [
     0xd6d6_a3e8, 0xa1d1_937e, 0x38d8_c2c4, 0x4fdf_f252, 0xd1bb_67f1, 0xa6bc_5767, 0x3fb5_06dd, 0x48b2_364b,
     0xd80d_2bda, 0xaf0a_1b4c, 0x3603_4af6, 0x4104_7a60, 0xdf60_efc3, 0xa867_df55, 0x316e_8eef, 0x4669_be79]

  const ROWB: seq<bv32> := [
     0xcb61_b38c, 0xbc66_831a, 0x256f_d2a0, 0x5268_e236, 0xcc0c_7795, 0xbb0b_4703, 0x2202_16b9, 0x5505_262f,
     0xc5ba_3bbe, 0xb2bd_0b28, 0x2bb4_5a92, 0x5cb3_6a04, 0xc2d7_ffa7, 0xb5d0_cf31, 0x2cd9_9e8b, 0x5bde_ae1d]

  const ROWC: seq<bv32> := [
     0x9b64_c2b0, 0xec63_f226, 0x756a_a39c, 0x026d_930a, 0x9c09_06a9, 0xeb0e_363f, 0x7207_6785, 0x0500_5713,
     0x95bf_4a82, 0xe2b8_7a14, 0x7bb1_2bae, 0x0cb6_1b38, 0x92d2_8e9b, 0xe5d5_be0d, 0x7cdc_efb7, 0x0bdb_df21]

  const ROWD: seq<bv32> := [
     0x86d3_d2d4, 0xf1d4_e242, 0x68dd_b3f8, 0x1fda_836e, 0x81be_16cd, 0xf6b9_265b, 0x6fb0_77e1, 0x18b7_4777,
     0x8808_5ae6, 0xff0f_6a70, 0x6606_3bca, 0x1101_0b5c, 0x8f65_9eff, 0xf862_ae69, 0x616b_ffd3, 0x166c_cf45]

  const ROWE: seq<bv32> := [
     0xa00a_e278, 0xd70d_d2ee, 0x4e04_8354, 0x3903_b3c2, 0xa767_2661, 0xd060_16f7, 0x4969_474d, 0x3e6e_77db,
     0xaed1_6a4a, 0xd9d6_5adc, 0x40df_0b66, 0x37d8_3bf0, 0xa9bc_ae53, 0xdebb_9ec5, 0x47b2_cf7f, 0x30b5_ffe9]

  const ROWF: seq<bv32> := [
     0xbdbd_f21c, 0xcaba_c28a, 0x53b3_9330, 0x24b4_a3a6, 0xbad0_3605, 0xcdd7_0693, 0x54de_5729, 0x23d9_67bf,
     0xb366_7a2e, 0xc461_4ab8, 0x5d68_1b02, 0x2a6f_2b94, 0xb40b_be37, 0xc30c_8ea1, 0x5a05_df1b, 0x2d02_ef8d]

  function Row(h: bv8): (t: seq<bv32>)
    ensures |t| == 16
  {
    if h == 0 then ROW0 else
    if h == 1 then ROW1 else
    if h == 2 then ROW2 else
    if h == 3 then ROW3 else
    if h == 4 then ROW4 else
    if h == 5 then ROW5 else
    if h == 6 then ROW6 else
    if h == 7 then ROW7 else
    if h == 8 then ROW8 else
    if h == 9 then ROW9 else
    if h == 10 then ROWA else
    if h == 11 then ROWB else
    if h == 12 then ROWC else
    if h == 13 then ROWD else
    if h == 14 then ROWE else
    ROWF
  }

  /** Entry j of a row. */
  function Pick(t: seq<bv32>, j: bv8): bv32
    requires |t| == 16
  {
    if j == 0 then t[0] else
    if j == 1 then t[1] else
    if j == 2 then t[2] else
    if j == 3 then t[3] else
    if j == 4 then t[4] else
    if j == 5 then t[5] else
    if j == 6 then t[6] else
    if j == 7 then t[7] else
    if j == 8 then t[8] else
    if j == 9 then t[9] else
    if j == 10 then t[10] else
    if j == 11 then t[11] else
    if j == 12 then t[12] else
    if j == 13 then t[13] else
    if j == 14 then t[14] else
    t[15]
  }

  /** kChecksumPolys[i]. */
  function TableAt(i: bv8): bv32 {
    Pick(Row(i >> 4), i & 15)
  }

  // ---------------------------------------------------------------- words under exclusive or

  // The bit operations carry names so that proofs can hide them and reason by the laws below.

  function Xor(a: bv32, b: bv32): bv32 { a ^ b }

  function Not(a: bv32): bv32 { !a }

  function Half(c: bv32): bv32 { c >> 1 }

  function Low(c: bv32): bv32 { c & 0xFF }

  function Down(c: bv32): bv32 { c >> 8 }

  function Up(c: bv32): bv32 { c << 8 }

  function Bit0(c: bv32): bv32 { c & 1 }

  /** The byte as an unsigned word. */
  function Wide(b: bv8): bv32 { b as bv32 }

  /** The byte as the signed Char of the source widens it. */
  function SignExtend(b: bv8): bv32 {
    if b & 0x80 == 0 then b as bv32 else (b as bv32) | 0xFFFF_FF00
  }

  // ---------------------------------------------------------------- the bit-serial definition

  /** The reflected polynomial when the low bit is set. */
  function Mask(c: bv32): bv32 {
    if c & 1 == 1 then 0xEDB8_8320 else 0
  }

  /** One bit of the reflected division. */
  function Shift(c: bv32): bv32 {
    Xor(Half(c), Mask(c))
  }

  function Shifts(c: bv32, n: nat): bv32
    decreases n
  {
    if n == 0 then c else Shifts(Shift(c), n - 1)
  }

  /** Feeding the n low bits of b, the lowest first: each bit is added to the register and one bit is divided out. */
  function FeedBits(c: bv32, b: bv32, n: nat): bv32
    decreases n
  {
    if n == 0 then c else FeedBits(Shift(Xor(c, Bit0(b))), Half(b), n - 1)
  }

  /** The register after a message. */
  function Feed(c: bv32, data: seq<bv8>): bv32
    decreases |data|
  {
    if data == [] then c else Feed(FeedBits(c, Wide(data[0]), 8), data[1..])
  }

  /** The CRC-32 of a message: a register of ones, every bit of every byte, and the complement. */
  function Crc(data: seq<bv8>): bv32 {
    Not(Feed(0xFFFF_FFFF, data))
  }

  // ---------------------------------------------------------------- the table-driven form

  /** One turn of the loop of ke_calculate_crc32. */
  function TableStep(c: bv32, b: bv8): bv32 {
    Xor(Down(c), TableAt(Index(c, b)))
  }

  /** The table index a register and a Char select. */
  function Index(c: bv32, b: bv8): bv8 {
    ((c ^ SignExtend(b)) & 0xFF) as bv8
  }

  /** ke_calculate_crc32. */
  method Calculate(input: array?<bv8>, len: int) returns (crc: bv32)
    requires input != null ==> len <= input.Length
    ensures input == null ==> crc == 0xFFFF_FFFF
    ensures input != null ==> crc == Crc(input[..if len < 0 then 0 else len])
  {
    hide TableStep, Index, FeedBits;
    if input == null {
      return 0xFFFF_FFFF;
    }
    crc := 0xFFFF_FFFF;
    var left, at := len, 0;
    ghost var data := input[..if len < 0 then 0 else len];
    while left > 0
      invariant len >= 0 ==> at + left == len
      invariant 0 <= at <= |data| && (left <= 0 ==> at == |data|)
      invariant Feed(crc, data[at..]) == Feed(0xFFFF_FFFF, data)
    {
      TableStepIs(crc, data[at]);
      assert data[at..][1..] == data[at + 1..];
      crc := TableStep(crc, input[at]);
      left, at := left - 1, at + 1;
    }
    crc := Not(crc);
  }

  // ---------------------------------------------------------------- shifting is linear and loses nothing

  lemma XorSwap(a: bv32, b: bv32, c: bv32, d: bv32)
    ensures Xor(Xor(a, b), Xor(c, d)) == Xor(Xor(a, c), Xor(b, d))
  {
    hide *;
    XorAssociates(a, b, Xor(c, d));
    XorAssociates(b, c, d);
    XorCommutes(b, c);
    XorAssociates(c, b, d);
    XorAssociates(a, c, Xor(b, d));
  }

  lemma XorAssociates(a: bv32, b: bv32, c: bv32)
    ensures Xor(Xor(a, b), c) == Xor(a, Xor(b, c))
  {
  }

  lemma XorCancels(a: bv32, b: bv32, c: bv32)
    ensures Xor(a, b) == Xor(a, c) ==> b == c
  {
  }

  lemma MaskLinear(a: bv32, b: bv32)
    ensures Mask(Xor(a, b)) == Xor(Mask(a), Mask(b))
  {
  }

  lemma HalfLinear(a: bv32, b: bv32)
    ensures Half(Xor(a, b)) == Xor(Half(a), Half(b))
  {
  }

  lemma ShiftLinear(a: bv32, b: bv32)
    ensures Shift(Xor(a, b)) == Xor(Shift(a), Shift(b))
  {
    hide Xor, Half, Mask;
    MaskLinear(a, b);
    HalfLinear(a, b);
    XorSwap(Half(a), Half(b), Mask(a), Mask(b));
  }

  lemma {:induction false} ShiftsLinear(a: bv32, b: bv32, n: nat)
    ensures Shifts(Xor(a, b), n) == Xor(Shifts(a, n), Shifts(b, n))
    decreases n
  {
    hide Xor, Shift;
    if n > 0 {
      ShiftLinear(a, b);
      ShiftsLinear(Shift(a), Shift(b), n - 1);
    }
  }

  lemma {:induction false} ShiftsAdd(c: bv32, m: nat, n: nat)
    ensures Shifts(c, m + n) == Shifts(Shifts(c, m), n)
    decreases m
  {
    hide Shift;
    if m > 0 {
      ShiftsAdd(Shift(c), m - 1, n);
    }
  }

  /** The polynomial has its top bit set, so the top bit after a shift is the bit shifted out. */
  lemma ShiftInjective(a: bv32, b: bv32)
    requires Shift(a) == Shift(b)
    ensures a == b
  {
    hide *;
    Unshifted(a);
    Unshifted(b);
  }

  function Unshift(d: bv32): bv32 {
    if d & 0x8000_0000 == 0 then d << 1 else ((d ^ 0xEDB8_8320) << 1) | 1
  }

  lemma Unshifted(c: bv32)
    ensures Unshift(Shift(c)) == c
  {
  }

  lemma {:induction false} ShiftsInjective(a: bv32, b: bv32, n: nat)
    requires Shifts(a, n) == Shifts(b, n)
    ensures a == b
    decreases n
  {
    hide Shift;
    if n > 0 {
      ShiftsInjective(Shift(a), Shift(b), n - 1);
      ShiftInjective(a, b);
    }
  }

  // ---------------------------------------------------------------- eight bits at a time

  /** A register without its low bit only moves down. */
  lemma ShiftEven(c: bv32)
    requires Bit0(c) == 0
    ensures Shift(c) == Half(c)
  {
  }

  /** c has only zeros among its n low bits. */
  predicate Clear(c: bv32, n: nat)
    decreases n
  {
    n == 0 || (Bit0(c) == 0 && Clear(Half(c), n - 1))
  }

  function Halves(c: bv32, n: nat): bv32
    decreases n
  {
    if n == 0 then c else Halves(Half(c), n - 1)
  }

  lemma {:induction false} ShiftsClear(c: bv32, n: nat)
    requires Clear(c, n)
    ensures Shifts(c, n) == Halves(c, n)
    decreases n
  {
    hide Shift, Half, Bit0;
    if n > 0 {
      ShiftEven(c);
      ShiftsClear(Half(c), n - 1);
    }
  }

  lemma ClearLow(c: bv32)
    requires Low(c) == 0
    ensures Clear(c, 8) && Halves(c, 8) == Down(c)
  {
    hide Clear, Halves, Half, Bit0;
    LowNibbles(c);
    ClearNibble(c);
    ClearNibble(c >> 4);
    ClearAdds(c, 4, 4);
  }

  lemma LowNibbles(c: bv32)
    requires Low(c) == 0
    ensures c & 0xF == 0 && (c >> 4) & 0xF == 0 && (c >> 4) >> 4 == Down(c)
  {
  }

  lemma ClearNibble(c: bv32)
    requires c & 0xF == 0
    ensures Clear(c, 4) && Halves(c, 4) == c >> 4
  {
  }

  lemma {:induction false} ClearAdds(c: bv32, m: nat, n: nat)
    requires Clear(c, m) && Clear(Halves(c, m), n)
    ensures Clear(c, m + n) && Halves(c, m + n) == Halves(Halves(c, m), n)
    decreases m
  {
    hide Half, Bit0;
    if m > 0 {
      ClearAdds(Half(c), m - 1, n);
    }
  }

  lemma ShiftsHigh(c: bv32)
    requires Low(c) == 0
    ensures Shifts(c, 8) == Down(c)
  {
    hide Shifts, Clear, Halves, Low, Down;
    ClearLow(c);
    ShiftsClear(c, 8);
  }

  lemma SplitLow(c: bv32) returns (high: bv32)
    ensures c == Xor(high, Low(c)) && Low(high) == 0 && Down(high) == Down(c)
  {
    high := c & 0xFFFF_FF00;
  }

  /** Eight shifts at once: the byte shifted out alone decides what is added. */
  lemma ShiftsByte(c: bv32)
    ensures Shifts(c, 8) == Xor(Down(c), Shifts(Low(c), 8))
  {
    hide *;
    var high := SplitLow(c);
    ShiftsLinear(high, Low(c), 8);
    ShiftsHigh(high);
  }

  /** Adding a byte above the one being shifted out is adding it after eight shifts. */
  lemma Absorb(c: bv32, b: bv32)
    requires Down(Up(b)) == b
    ensures Xor(Shifts(c, 8), b) == Shifts(Xor(c, Up(b)), 8)
  {
    hide *;
    LowUp(b);
    ShiftsLinear(c, Up(b), 8);
    ShiftsHigh(Up(b));
  }

  lemma LowUp(b: bv32)
    ensures Low(Up(b)) == 0
  {
  }

  // ---------------------------------------------------------------- feeding bits

  /** b has no bit at n or above. */
  predicate Fits(b: bv32, n: nat)
    decreases n
  {
    if n == 0 then b == 0 else Fits(Half(b), n - 1)
  }

  lemma WideFits(b: bv8)
    ensures Fits(Wide(b), 8)
  {
    FitsNibble(b as bv32);
  }

  lemma FitsNibble(b: bv32)
    requires b < 256
    ensures Fits(b, 8)
  {
    assert Half(Half(Half(Half(b)))) < 16;
  }

  lemma SplitBit(b: bv32) returns (even: bv32)
    ensures b == Xor(Bit0(b), even) && Bit0(even) == 0 && Half(even) == Half(b)
  {
    even := b & 0xFFFF_FFFE;
  }

  /** Feeding bits one by one is adding them all and shifting them all. */
  lemma {:induction false} FeedBitsIs(c: bv32, b: bv32, n: nat)
    requires Fits(b, n)
    ensures FeedBits(c, b, n) == Shifts(Xor(c, b), n)
    decreases n
  {
    hide Shift, Half, Bit0, Xor;
    if n == 0 {
      XorZero(c);
    } else {
      var d := Shift(Xor(c, Bit0(b)));
      FeedBitsIs(d, Half(b), n - 1);
      var even := SplitBit(b);
      XorAssociates(c, Bit0(b), even);
      ShiftLinear(Xor(c, Bit0(b)), even);
      ShiftEven(even);
    }
  }

  lemma XorZero(c: bv32)
    ensures Xor(c, 0) == c
  {
  }

  lemma FeedByteIs(c: bv32, b: bv8)
    ensures FeedBits(c, Wide(b), 8) == Shifts(Xor(c, Wide(b)), 8)
  {
    hide *;
    WideFits(b);
    FeedBitsIs(c, Wide(b), 8);
  }

  /** The sign of the Char and the bytes above the lowest do not reach the index. */
  lemma IndexIs(c: bv32, b: bv8)
    ensures Wide(Index(c, b)) == Low(Xor(c, Wide(b))) && Down(c) == Down(Xor(c, Wide(b)))
  {
  }

  /** One table step feeds the eight bits of its byte. */
  lemma TableStepIs(c: bv32, b: bv8)
    ensures TableStep(c, b) == FeedBits(c, Wide(b), 8)
  {
    hide *;
    var x := Xor(c, Wide(b));
    StepUnfold(c, b);
    IndexIs(c, b);
    TableIs(Index(c, b));
    FeedByteIs(c, b);
    ShiftsByte(x);
  }

  lemma StepUnfold(c: bv32, b: bv8)
    ensures TableStep(c, b) == Xor(Down(c), TableAt(Index(c, b)))
  {
  }

  // ---------------------------------------------------------------- what the checksum detects

  lemma {:induction false} FeedAppend(c: bv32, a: seq<bv8>, b: seq<bv8>)
    ensures Feed(c, a + b) == Feed(Feed(c, a), b)
    decreases |a|
  {
    hide FeedBits, Wide;
    if a == [] {
      assert a + b == b;
    } else {
      FeedAppend(FeedBits(c, Wide(a[0]), 8), a[1..], b);
      assert (a + b)[1..] == a[1..] + b;
    }
  }

  /** A message as one little-endian word. */
  function Word(s: seq<bv8>): bv32
    decreases |s|
  {
    if s == [] then 0 else Xor(Wide(s[0]), Up(Word(s[1..])))
  }

  lemma WordFits(s: seq<bv8>)
    requires |s| <= 3
    ensures Down(Up(Word(s))) == Word(s)
  {
    hide *;
    WordBelow(s);
    BelowFits(Word(s));
  }

  /** The bits a word of n bytes may use. */
  function Room(n: nat): bv32
    requires n <= 3
  {
    if n == 0 then 0 else if n == 1 then 0xFF else if n == 2 then 0xFFFF else 0xFF_FFFF
  }

  lemma {:induction false} WordBelow(s: seq<bv8>)
    requires |s| <= 3
    ensures Word(s) <= Room(|s|)
    decreases |s|
  {
    hide Xor, Up, Wide, Room;
    if |s| == 0 {
      NoRoom();
    } else {
      WordBelow(s[1..]);
      OneMore(Wide(s[0]), s[0], Word(s[1..]), |s[1..]|);
    }
  }

  lemma NoRoom()
    ensures Room(0) == 0
  {
  }

  lemma OneMore(v: bv32, b: bv8, w: bv32, n: nat)
    requires n < 3 && v == Wide(b) && w <= Room(n)
    ensures Xor(v, Up(w)) <= Room(n + 1)
  {
  }

  lemma BelowFits(w: bv32)
    requires exists n: nat :: n <= 3 && w <= Room(n)
    ensures Down(Up(w)) == w
  {
    assert w <= 0xFF_FFFF;
  }

  /** Up to four bytes are fed as one word. */
  lemma {:induction false} FeedWord(c: bv32, s: seq<bv8>)
    requires |s| <= 4
    ensures Feed(c, s) == Shifts(Xor(c, Word(s)), 8 * |s|)
    decreases |s|
  {
    hide Shift, Xor, Up, Wide, FeedBits, Shifts;
    if s == [] {
      XorZero(c);
      ShiftsNone(c);
    } else {
      var b, w, n := Wide(s[0]), Word(s[1..]), 8 * |s[1..]|;
      FeedByteIs(c, s[0]);
      FeedWord(Shifts(Xor(c, b), 8), s[1..]);
      WordFits(s[1..]);
      Absorb(Xor(c, b), w);
      XorAssociates(c, b, Up(w));
      ShiftsAdd(Xor(c, Word(s)), 8, n);
    }
  }

  lemma ShiftsNone(c: bv32)
    ensures Shifts(c, 0) == c
  {
  }

  lemma WordHead(b: bv8, c: bv8, v: bv32, w: bv32)
    requires Xor(Wide(b), Up(v)) == Xor(Wide(c), Up(w))
    requires Down(Up(v)) == v && Down(Up(w)) == w
    ensures b == c && v == w
  {
    hide *;
    HeadLow(b, v);
    HeadLow(c, w);
  }

  lemma HeadLow(b: bv8, v: bv32)
    ensures Narrow(Xor(Wide(b), Up(v))) == b
    ensures Down(Xor(Wide(b), Up(v))) == Down(Up(v))
  {
  }

  function Narrow(w: bv32): bv8 { (w & 0xFF) as bv8 }

  lemma {:induction false} WordInjective(s: seq<bv8>, t: seq<bv8>)
    requires |s| == |t| <= 4 && Word(s) == Word(t)
    ensures s == t
    decreases |s|
  {
    hide Xor, Up, Down, Wide;
    if |s| > 0 {
      WordFits(s[1..]);
      WordFits(t[1..]);
      WordHead(s[0], t[0], Word(s[1..]), Word(t[1..]));
      WordInjective(s[1..], t[1..]);
      assert s == [s[0]] + s[1..] && t == [t[0]] + t[1..];
    }
  }

  /** What follows never hides a difference of the register. */
  lemma {:induction false} FeedInjective(c: bv32, d: bv32, s: seq<bv8>)
    requires Feed(c, s) == Feed(d, s)
    ensures c == d
    decreases |s|
  {
    hide FeedBits, Wide, Xor, Shifts;
    if |s| > 0 {
      var b := Wide(s[0]);
      FeedByteIs(c, s[0]);
      FeedByteIs(d, s[0]);
      FeedInjective(FeedBits(c, b, 8), FeedBits(d, b, 8), s[1..]);
      ShiftsInjective(Xor(c, b), Xor(d, b), 8);
      XorCommutes(b, c);
      XorCommutes(b, d);
      XorCancels(b, c, d);
    }
  }

  lemma XorCommutes(a: bv32, b: bv32)
    ensures Xor(a, b) == Xor(b, a)
  {
  }

  /** Equal-length messages that differ only inside four consecutive bytes never share a checksum. */
  lemma BurstDetected(before: seq<bv8>, s: seq<bv8>, t: seq<bv8>, after: seq<bv8>)
    requires |s| == |t| <= 4
    ensures Crc(before + s + after) == Crc(before + t + after) <==> s == t
  {
    hide *;
    if Crc(before + s + after) == Crc(before + t + after) {
      SameCrc(before + s + after, before + t + after);
      SameRegister(0xFFFF_FFFF, before, s, t, after);
    }
  }

  lemma SameCrc(s: seq<bv8>, t: seq<bv8>)
    requires Crc(s) == Crc(t)
    ensures Feed(0xFFFF_FFFF, s) == Feed(0xFFFF_FFFF, t)
  {
    hide Feed, Not;
    Complement(Feed(0xFFFF_FFFF, s), Feed(0xFFFF_FFFF, t));
  }

  lemma Complement(a: bv32, b: bv32)
    requires Not(a) == Not(b)
    ensures a == b
  {
    assert !!a == a && !!b == b;
  }

  lemma SameRegister(c: bv32, before: seq<bv8>, s: seq<bv8>, t: seq<bv8>, after: seq<bv8>)
    requires |s| == |t| <= 4
    requires Feed(c, before + s + after) == Feed(c, before + t + after)
    ensures s == t
  {
    hide *;
    FeedAppend(c, before + s, after);
    FeedAppend(c, before + t, after);
    FeedInjective(Feed(c, before + s), Feed(c, before + t), after);
    FeedAppend(c, before, s);
    FeedAppend(c, before, t);
    var d := Feed(c, before);
    FeedWord(d, s);
    FeedWord(d, t);
    ShiftsInjective(Xor(d, Word(s)), Xor(d, Word(t)), 8 * |s|);
    XorCancels(d, Word(s), Word(t));
    WordInjective(s, t);
  }

  /** Messages of one length that differ in exactly one byte never share a checksum. */
  lemma OneByteDetected(s: seq<bv8>, t: seq<bv8>, k: nat)
    requires |s| == |t| && k < |s| && s[k] != t[k]
    requires forall i :: 0 <= i < |s| && i != k ==> s[i] == t[i]
    ensures Crc(s) != Crc(t)
  {
    hide *;
    assert s == s[..k] + [s[k]] + s[k + 1..];
    assert t == s[..k] + [t[k]] + s[k + 1..];
    BurstDetected(s[..k], [s[k]], [t[k]], s[k + 1..]);
  }

  // ---------------------------------------------------------------- the table

  lemma Row0(j: bv8)
    requires j < 16
    ensures Pick(ROW0, j) == Xor(ROW0[0], Pick(ROW0, j))
  {
    XorZero(Pick(ROW0, j));
  }

  lemma Row1(j: bv8)
    requires j < 16
    ensures Pick(ROW1, j) == Xor(ROW1[0], Pick(ROW0, j))
  {
  }

  lemma Row2(j: bv8)
    requires j < 16
    ensures Pick(ROW2, j) == Xor(ROW2[0], Pick(ROW0, j))
  {
  }

  lemma Row3(j: bv8)
    requires j < 16
    ensures Pick(ROW3, j) == Xor(ROW3[0], Pick(ROW0, j))
  {
  }

  lemma Row4(j: bv8)
    requires j < 16
    ensures Pick(ROW4, j) == Xor(ROW4[0], Pick(ROW0, j))
  {
  }

  lemma Row5(j: bv8)
    requires j < 16
    ensures Pick(ROW5, j) == Xor(ROW5[0], Pick(ROW0, j))
  {
  }

  lemma Row6(j: bv8)
    requires j < 16
    ensures Pick(ROW6, j) == Xor(ROW6[0], Pick(ROW0, j))
  {
  }

  lemma Row7(j: bv8)
    requires j < 16
    ensures Pick(ROW7, j) == Xor(ROW7[0], Pick(ROW0, j))
  {
  }

  lemma Row8(j: bv8)
    requires j < 16
    ensures Pick(ROW8, j) == Xor(ROW8[0], Pick(ROW0, j))
  {
  }

  lemma Row9(j: bv8)
    requires j < 16
    ensures Pick(ROW9, j) == Xor(ROW9[0], Pick(ROW0, j))
  {
  }

  lemma RowA(j: bv8)
    requires j < 16
    ensures Pick(ROWA, j) == Xor(ROWA[0], Pick(ROW0, j))
  {
  }

  lemma RowB(j: bv8)
    requires j < 16
    ensures Pick(ROWB, j) == Xor(ROWB[0], Pick(ROW0, j))
  {
  }

  lemma RowC(j: bv8)
    requires j < 16
    ensures Pick(ROWC, j) == Xor(ROWC[0], Pick(ROW0, j))
  {
  }

  lemma RowD(j: bv8)
    requires j < 16
    ensures Pick(ROWD, j) == Xor(ROWD[0], Pick(ROW0, j))
  {
  }

  lemma RowE(j: bv8)
    requires j < 16
    ensures Pick(ROWE, j) == Xor(ROWE[0], Pick(ROW0, j))
  {
  }

  lemma RowF(j: bv8)
    requires j < 16
    ensures Pick(ROWF, j) == Xor(ROWF[0], Pick(ROW0, j))
  {
  }

  lemma Rows(h: bv8, j: bv8)
    requires h < 16 && j < 16
    ensures Pick(Row(h), j) == Xor(Row(h)[0], Pick(ROW0, j))
  {
    hide Pick;
    if h == 0 { Row0(j); }
    if h == 1 { Row1(j); }
    if h == 2 { Row2(j); }
    if h == 3 { Row3(j); }
    if h == 4 { Row4(j); }
    if h == 5 { Row5(j); }
    if h == 6 { Row6(j); }
    if h == 7 { Row7(j); }
    if h == 8 { Row8(j); }
    if h == 9 { Row9(j); }
    if h == 10 { RowA(j); }
    if h == 11 { RowB(j); }
    if h == 12 { RowC(j); }
    if h == 13 { RowD(j); }
    if h == 14 { RowE(j); }
    if h == 15 { RowF(j); }
  }

  lemma Entry0() ensures ROW0[0] == Shifts(0, 8) {}

  lemma Entry1() ensures ROW0[1] == Shifts(1, 8) {}

  lemma Entry2() ensures ROW0[2] == Shifts(2, 8) {}

  lemma Entry3() ensures ROW0[3] == Shifts(3, 8) {}

  lemma Entry4() ensures ROW0[4] == Shifts(4, 8) {}

  lemma Entry5() ensures ROW0[5] == Shifts(5, 8) {}

  lemma Entry6() ensures ROW0[6] == Shifts(6, 8) {}

  lemma Entry7() ensures ROW0[7] == Shifts(7, 8) {}

  lemma Entry8() ensures ROW0[8] == Shifts(8, 8) {}

  lemma Entry9() ensures ROW0[9] == Shifts(9, 8) {}

  lemma Entry10() ensures ROW0[10] == Shifts(10, 8) {}

  lemma Entry11() ensures ROW0[11] == Shifts(11, 8) {}

  lemma Entry12() ensures ROW0[12] == Shifts(12, 8) {}

  lemma Entry13() ensures ROW0[13] == Shifts(13, 8) {}

  lemma Entry14() ensures ROW0[14] == Shifts(14, 8) {}

  lemma Entry15() ensures ROW0[15] == Shifts(15, 8) {}

  lemma Head1() ensures ROW1[0] == Shifts(16, 8) {}

  lemma Head2() ensures ROW2[0] == Shifts(32, 8) {}

  lemma Head3() ensures ROW3[0] == Shifts(48, 8) {}

  lemma Head4() ensures ROW4[0] == Shifts(64, 8) {}

  lemma Head5() ensures ROW5[0] == Shifts(80, 8) {}

  lemma Head6() ensures ROW6[0] == Shifts(96, 8) {}

  lemma Head7() ensures ROW7[0] == Shifts(112, 8) {}

  lemma Head8() ensures ROW8[0] == Shifts(128, 8) {}

  lemma Head9() ensures ROW9[0] == Shifts(144, 8) {}

  lemma Head10() ensures ROWA[0] == Shifts(160, 8) {}

  lemma Head11() ensures ROWB[0] == Shifts(176, 8) {}

  lemma Head12() ensures ROWC[0] == Shifts(192, 8) {}

  lemma Head13() ensures ROWD[0] == Shifts(208, 8) {}

  lemma Head14() ensures ROWE[0] == Shifts(224, 8) {}

  lemma Head15() ensures ROWF[0] == Shifts(240, 8) {}

  lemma LowEntry(j: bv8)
    requires j < 16
    ensures Pick(ROW0, j) == Shifts(Wide(j), 8)
  {
    hide Shifts;
    if j == 0 { Entry0(); }
    if j == 1 { Entry1(); }
    if j == 2 { Entry2(); }
    if j == 3 { Entry3(); }
    if j == 4 { Entry4(); }
    if j == 5 { Entry5(); }
    if j == 6 { Entry6(); }
    if j == 7 { Entry7(); }
    if j == 8 { Entry8(); }
    if j == 9 { Entry9(); }
    if j == 10 { Entry10(); }
    if j == 11 { Entry11(); }
    if j == 12 { Entry12(); }
    if j == 13 { Entry13(); }
    if j == 14 { Entry14(); }
    if j == 15 { Entry15(); }
  }

  lemma HighEntry(h: bv8)
    requires h < 16
    ensures Row(h)[0] == Shifts(Wide(h << 4), 8)
  {
    hide Shifts;
    if h == 0 { Entry0(); }
    if h == 1 { Head1(); }
    if h == 2 { Head2(); }
    if h == 3 { Head3(); }
    if h == 4 { Head4(); }
    if h == 5 { Head5(); }
    if h == 6 { Head6(); }
    if h == 7 { Head7(); }
    if h == 8 { Head8(); }
    if h == 9 { Head9(); }
    if h == 10 { Head10(); }
    if h == 11 { Head11(); }
    if h == 12 { Head12(); }
    if h == 13 { Head13(); }
    if h == 14 { Head14(); }
    if h == 15 { Head15(); }
  }

  lemma Nibbles(i: bv8) returns (h: bv8, j: bv8)
    ensures h < 16 && j < 16 && TableAt(i) == Pick(Row(h), j)
    ensures Wide(i) == Xor(Wide(h << 4), Wide(j))
  {
    h, j := i >> 4, i & 15;
  }

  /** Entry i of the table is what eight bit-serial steps make of i. */
  lemma TableIs(i: bv8)
    ensures TableAt(i) == Shifts(Wide(i), 8)
  {
    hide *;
    var h, j := Nibbles(i);
    Rows(h, j);
    LowEntry(j);
    HighEntry(h);
    ShiftsLinear(Wide(h << 4), Wide(j), 8);
  }

  // ---------------------------------------------------------------- the values themselves

  /** The message of no bytes. */
  lemma EmptyMessage()
    ensures Crc([]) == 0
  {
  }

  /** The check value of CRC-32: the digits "123456789". */
  lemma CheckValue()
    ensures Crc([0x31, 0x32, 0x33, 0x34, 0x35, 0x36, 0x37, 0x38, 0x39]) == 0xCBF4_3926
  {
    hide *;
    var digits: seq<bv8> := [0x31, 0x32, 0x33, 0x34, 0x35, 0x36, 0x37, 0x38, 0x39];
    FeedNothing(0xFFFF_FFFF);
    Digit1();
    FeedPush(0xFFFF_FFFF, digits[..0], digits[..1], 0x31, 0xFFFF_FFFF);
    Digit2();
    FeedPush(0xFFFF_FFFF, digits[..1], digits[..2], 0x32, 0x7C23_1048);
    Digit3();
    FeedPush(0xFFFF_FFFF, digits[..2], digits[..3], 0x33, 0xB0AC_BB32);
    Digit4();
    FeedPush(0xFFFF_FFFF, digits[..3], digits[..4], 0x34, 0x77B7_9C2D);
    Digit5();
    FeedPush(0xFFFF_FFFF, digits[..4], digits[..5], 0x35, 0x641C_1F5C);
    Digit6();
    FeedPush(0xFFFF_FFFF, digits[..5], digits[..6], 0x36, 0x340A_C5E3);
    Digit7();
    FeedPush(0xFFFF_FFFF, digits[..6], digits[..7], 0x37, 0xF68D_2C9E);
    Digit8();
    FeedPush(0xFFFF_FFFF, digits[..7], digits[..8], 0x38, 0xAFFC_9660);
    Digit9();
    FeedPush(0xFFFF_FFFF, digits[..8], digits[..9], 0x39, 0x651F_2550);
    assert digits[..0] == [] && digits[..9] == digits;
    CrcIs(digits);
    LastDigit();
  }

  lemma LastDigit()
    ensures Not(0x340B_C6D9) == 0xCBF4_3926
  {
  }

  lemma FeedNothing(c: bv32)
    ensures Feed(c, []) == c
  {
  }

  /** One byte more. */
  lemma FeedPush(c: bv32, data: seq<bv8>, more: seq<bv8>, b: bv8, d: bv32)
    requires more == data + [b] && Feed(c, data) == d
    ensures Feed(c, more) == TableStep(d, b)
  {
    hide *;
    FeedAppend(c, data, [b]);
    FeedOne(d, b);
    TableStepIs(d, b);
  }

  lemma FeedOne(c: bv32, b: bv8)
    ensures Feed(c, [b]) == FeedBits(c, Wide(b), 8)
  {
    hide FeedBits, Wide;
    assert [b][1..] == [];
  }

  lemma Digit1() ensures TableStep(0xFFFF_FFFF, 0x31) == 0x7C23_1048 {}

  lemma Digit2() ensures TableStep(0x7C23_1048, 0x32) == 0xB0AC_BB32 {}

  lemma Digit3() ensures TableStep(0xB0AC_BB32, 0x33) == 0x77B7_9C2D {}

  lemma Digit4() ensures TableStep(0x77B7_9C2D, 0x34) == 0x641C_1F5C {}

  lemma Digit5() ensures TableStep(0x641C_1F5C, 0x35) == 0x340A_C5E3 {}

  lemma Digit6() ensures TableStep(0x340A_C5E3, 0x36) == 0xF68D_2C9E {}

  lemma Digit7() ensures TableStep(0xF68D_2C9E, 0x37) == 0xAFFC_9660 {}

  lemma Digit8() ensures TableStep(0xAFFC_9660, 0x38) == 0x651F_2550 {}

  lemma Digit9() ensures TableStep(0x651F_2550, 0x39) == 0x340B_C6D9 {}

  /** A checksum as the four bytes that are sent behind its message, the least significant first. */
  function Trailer(w: bv32): seq<bv8> {
    [(w & 0xFF) as bv8, ((w >> 8) & 0xFF) as bv8, ((w >> 16) & 0xFF) as bv8, ((w >> 24) & 0xFF) as bv8]
  }

  lemma TrailerIs(w: bv32)
    ensures Word(Trailer(w)) == w
  {
    WordOfFour((w & 0xFF) as bv8, ((w >> 8) & 0xFF) as bv8, ((w >> 16) & 0xFF) as bv8, ((w >> 24) & 0xFF) as bv8);
    FourParts(w);
  }

  lemma WordOfFour(a: bv8, b: bv8, c: bv8, d: bv8)
    ensures Word([a, b, c, d]) == Xor(Wide(a), Up(Xor(Wide(b), Up(Xor(Wide(c), Up(Xor(Wide(d), Up(0))))))))
  {
    hide Xor, Up, Wide;
    assert [a, b, c, d][1..] == [b, c, d] && [b, c, d][1..] == [c, d] && [c, d][1..] == [d] && [d][1..] == [];
    assert Word([d]) == Xor(Wide(d), Up(0));
    assert Word([c, d]) == Xor(Wide(c), Up(Word([d])));
    assert Word([b, c, d]) == Xor(Wide(b), Up(Word([c, d])));
  }

  lemma FourParts(w: bv32)
    ensures Xor(Wide((w & 0xFF) as bv8), Up(Xor(Wide(((w >> 8) & 0xFF) as bv8),
              Up(Xor(Wide(((w >> 16) & 0xFF) as bv8), Up(Xor(Wide(((w >> 24) & 0xFF) as bv8), Up(0)))))))) == w
  {
  }

  /** A message followed by four bytes has the residue of CRC-32 exactly when these are its checksum. */
  lemma Residue(m: seq<bv8>, t: seq<bv8>)
    requires |t| == 4
    ensures Crc(m + t) == 0x2144_DF1C <==> t == Trailer(Crc(m))
  {
    hide *;
    var own := Trailer(Crc(m));
    OwnTrailer(m);
    TrailerLength(Crc(m));
    assert m + t + [] == m + t && m + own + [] == m + own;
    BurstDetected(m, t, own, []);
  }

  lemma TrailerLength(w: bv32)
    ensures |Trailer(w)| == 4
  {
  }

  lemma OwnTrailer(m: seq<bv8>)
    ensures Crc(m + Trailer(Crc(m))) == 0x2144_DF1C
  {
    hide *;
    var c := Feed(0xFFFF_FFFF, m);
    CrcIs(m);
    CrcIs(m + Trailer(Crc(m)));
    FeedAppend(0xFFFF_FFFF, m, Trailer(Crc(m)));
    TrailerLength(Crc(m));
    FeedWord(c, Trailer(Crc(m)));
    TrailerIs(Crc(m));
    Opposite(c);
    OnesShifted();
  }

  /** The checksum is the complement of the register. */
  lemma CrcIs(m: seq<bv8>)
    ensures Crc(m) == Not(Feed(0xFFFF_FFFF, m))
  {
  }

  lemma Opposite(c: bv32)
    ensures Xor(c, Not(c)) == 0xFFFF_FFFF && Not(0xDEBB_20E3) == 0x2144_DF1C
  {
  }

  lemma OnesShifted()
    ensures Shifts(0xFFFF_FFFF, 32) == 0xDEBB_20E3
  {
    hide *;
    ByteShifted(0xFFFF_FFFF, 0xFF, 0x00FF_FFFF);
    ByteShifted(0x2DFD_1072, 0x72, 0x002D_FD10);
    ByteShifted(0xBE26_ED00, 0x00, 0x00BE_26ED);
    ByteShifted(0x00BE_26ED, 0xED, 0x0000_BE26);
    Ones1();
    Ones2();
    Ones3();
    Ones4();
    ShiftsAdd(0xFFFF_FFFF, 8, 24);
    ShiftsAdd(0x2DFD_1072, 8, 16);
    ShiftsAdd(0xBE26_ED00, 8, 8);
  }

  lemma Ones1()
    ensures Low(0xFFFF_FFFF) == Wide(0xFF) && Down(0xFFFF_FFFF) == 0x00FF_FFFF
    ensures Xor(0x00FF_FFFF, TableAt(0xFF)) == 0x2DFD_1072
  {
  }

  lemma Ones2()
    ensures Low(0x2DFD_1072) == Wide(0x72) && Down(0x2DFD_1072) == 0x002D_FD10
    ensures Xor(0x002D_FD10, TableAt(0x72)) == 0xBE26_ED00
  {
  }

  lemma Ones3()
    ensures Low(0xBE26_ED00) == Wide(0) && Down(0xBE26_ED00) == 0x00BE_26ED
    ensures Xor(0x00BE_26ED, TableAt(0)) == 0x00BE_26ED
  {
  }

  lemma Ones4()
    ensures Low(0x00BE_26ED) == Wide(0xED) && Down(0x00BE_26ED) == 0x0000_BE26
    ensures Xor(0x0000_BE26, TableAt(0xED)) == 0xDEBB_20E3
  {
  }

  /** Eight shifts by the table. */
  lemma ByteShifted(c: bv32, i: bv8, down: bv32)
    ensures Low(c) == Wide(i) && Down(c) == down ==> Shifts(c, 8) == Xor(down, TableAt(i))
  {
    hide *;
    ShiftsByte(c);
    TableIs(i);
  }
}
