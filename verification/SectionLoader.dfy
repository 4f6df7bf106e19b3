/** What the PEF and PE32 loaders share: backing a range of pages with fresh frames, rolling that back, and copying
    bytes through the running translation. */
module SectionLoader {
  import opened Words
  import opened PhysicalMemory
  import opened FrameAllocator
  import opened PageTables
  import opened PagingManager
  import opened Bytes

  /** Present, writable and user: the flags both loaders map with. */
  const LOAD_FLAGS: Word := 14

  /** base + k * kPageSize. */
  function PageAddr(base: Word, k: nat): Word {
    Add64(base, k * 0x1000)
  }

  /** kPageSize-sized pieces of a size, rounded up. */
  function PageCount(size: Word): nat {
    size / 0x1000 + (if size % 0x1000 != 0 then 1 else 0)
  }

  /** They are the fewest pages that hold the size. */
  lemma PageCountExact(size: Word)
    ensures size <= PageCount(size) * 0x1000 < size + 0x1000
  {
  }

  /** ldr_unmap_pages. */
  function UnmapPages(s: Hal, cr3: Word, base: Word, n: nat): Hal
    decreases n
  {
    if n == 0 then s
    else
      var (s1, frame) := UnmapPage(s, cr3, PageAddr(base, n - 1));
      UnmapPages(Free(s1, frame), cr3, base, n - 1)
  }

  /** The mapping loop from page k on, with its rollback. */
  function MapPages(s: Hal, cr3: Word, base: Word, k: nat, n: nat): (Hal, Status)
    decreases n - k
  {
    if k >= n then (s, Success)
    else
      var (s1, frame) := Alloc(s);
      if frame == 0 then (UnmapPages(Free(s1, frame), cr3, base, k), OutOfMemory)
      else
        var (s2, status) := MapPage(s1, cr3, PageAddr(base, k), frame, LOAD_FLAGS);
        if status != Success then (UnmapPages(Free(s2, frame), cr3, base, k), OutOfMemory)
        else MapPages(s2, cr3, base, k + 1, n)
  }

  /** How far the mapping loop gets from page k on: the number of pages mapped when it ends or stops. */
  function Mapped(s: Hal, cr3: Word, base: Word, k: nat, n: nat): (i: nat)
    requires k <= n
    ensures k <= i <= n
    decreases n - k
  {
    if k == n then n
    else
      var (s1, frame) := Alloc(s);
      if frame == 0 then k
      else
        var (s2, status) := MapPage(s1, cr3, PageAddr(base, k), frame, LOAD_FLAGS);
        if status != Success then k else Mapped(s2, cr3, base, k + 1, n)
  }

  // ---------------------------------------------------------------- bytes

  /** Weight of byte k of a word. */
  function Weight(k: nat): nat
    requires k < 8
  {
    if k == 0 then 1
    else if k == 1 then 0x100
    else if k == 2 then 0x1_0000
    else if k == 3 then 0x100_0000
    else if k == 4 then 0x1_0000_0000
    else if k == 5 then 0x100_0000_0000
    else if k == 6 then 0x1_0000_0000_0000
    else 0x100_0000_0000_0000
  }

  /** Byte k of a little-endian word. */
  function WordByte(w: Word, k: nat): Byte
    requires k < 8
  {
    w / Weight(k) % 0x100
  }

  /** The word with byte k replaced. */
  function SetWordByte(w: Word, k: nat, v: Byte): Word
    requires k < 8
  {
    SetFits(w, k, v);
    w - WordByte(w, k) * Weight(k) + v * Weight(k)
  }

  lemma SetFits(w: Word, k: nat, v: Byte)
    requires k < 8
    ensures 0 <= w - WordByte(w, k) * Weight(k) + v * Weight(k) < 0x1_0000_0000_0000_0000
  {
    ByteParts(w, k);
  }

  lemma ByteParts(w: Word, k: nat)
    requires k < 8
    ensures w == w % Weight(k) + WordByte(w, k) * Weight(k) + w / Weight(k) / 0x100 * (Weight(k) * 0x100)
    ensures k == 7 ==> w / Weight(k) / 0x100 == 0
    ensures k < 7 ==> w / Weight(k) / 0x100 * (Weight(k) * 0x100) <= 0x1_0000_0000_0000_0000 - Weight(k) * 0x100
  {
  }

  /** Byte `off` of a frame. */
  function FrameByte(f: Frame, off: nat): Byte
    requires off < 0x1000
  {
    WordByte(f[off / 8], off % 8)
  }

  function SetFrameByte(f: Frame, off: nat, v: Byte): Frame
    requires off < 0x1000
  {
    f[off / 8 := SetWordByte(f[off / 8], off % 8, v)]
  }

  /** The processor reads at this address. */
  predicate Readable(m: Memory, root: nat, va: Word) {
    Canonical(va) && Resolve(m, root, PathOf(va)).Leaf? && Resolve(m, root, PathOf(va)).frame < |m|
  }

  /** The processor writes at this address. */
  predicate Writable(m: Memory, root: nat, va: Word) {
    Readable(m, root, va) && Resolve(m, root, PathOf(va)).wr
  }

  /** A byte read through the translation, -1 where the processor faults. */
  function ReadVa(m: Memory, root: nat, va: Word): int {
    if Readable(m, root, va) then FrameByte(m[Resolve(m, root, PathOf(va)).frame], va % 0x1000) else -1
  }

  /** A byte written through the translation.  Where the processor faults memory stays as it is; what is said of a copy
      asks that it does not fault. */
  function WriteVa(m: Memory, root: nat, va: Word, b: Byte): Memory {
    if Writable(m, root, va) then
      var f := Resolve(m, root, PathOf(va)).frame;
      m[f := SetFrameByte(m[f], va % 0x1000, b)]
    else m
  }

  /** The copy does not fault from byte k on. */
  predicate NoFault(m: Memory, root: nat, src: seq<Byte>, va: Word, k: nat)
    decreases |src| - k
  {
    k < |src| ==>
      Writable(m, root, Add64(va, k)) && NoFault(WriteVa(m, root, Add64(va, k), src[k]), root, src, va, k + 1)
  }

  /** The byte loop of a copy, from byte k on. */
  function CopyFrom(m: Memory, root: nat, src: seq<Byte>, va: Word, k: nat): Memory
    decreases |src| - k
  {
    if k >= |src| then m else CopyFrom(WriteVa(m, root, Add64(va, k), src[k]), root, src, va, k + 1)
  }

  /** rt_copy_memory_safe with a source that is there: an overlong source zeroes the destination instead. */
  function CopySafe(m: Memory, root: nat, src: seq<Byte>, va: Word, size: nat): Memory {
    if va == 0 then m
    else if |src| > size then CopyFrom(m, root, seq(size, _ => 0), va, 0)
    else CopyFrom(m, root, src, va, 0)
  }

  // ---------------------------------------------------------------- bytes of a word

  /** The word with the given bytes, least significant first. */
  function FromBytes(b: seq<nat>): nat
    requires |b| == 8
  {
    b[0] + 0x100 * b[1] + 0x1_0000 * b[2] + 0x100_0000 * b[3] + 0x1_0000_0000 * b[4] + 0x100_0000_0000 * b[5]
    + 0x1_0000_0000_0000 * b[6] + 0x100_0000_0000_0000 * b[7]
  }

  /** Byte k of a word, given the part below and the part above it. */
  lemma ByteIs(w: Word, k: nat, low: nat, v: Byte, high: nat)
    requires k < 8 && low < Weight(k) && w == low + v * Weight(k) + high * (Weight(k) * 0x100)
    ensures WordByte(w, k) == v
  {
    assert v * Weight(k) + high * (Weight(k) * 0x100) == (v + high * 0x100) * Weight(k);
    DivIs(w, Weight(k), v + high * 0x100, low);
    DivIs(v + high * 0x100, 0x100, high, v);
  }

  lemma BytesOf(w: Word, b: seq<nat>)
    requires |b| == 8 && w == FromBytes(b) && forall k :: 0 <= k < 8 ==> b[k] < 0x100
    ensures forall k :: 0 <= k < 8 ==> WordByte(w, k) == b[k]
  {
    var h7 := 0;
    var h6 := b[7];
    var h5 := b[6] + 0x100 * h6;
    var h4 := b[5] + 0x100 * h5;
    var h3 := b[4] + 0x100 * h4;
    var h2 := b[3] + 0x100 * h3;
    var h1 := b[2] + 0x100 * h2;
    var h0 := b[1] + 0x100 * h1;
    var l1 := b[0];
    var l2 := l1 + 0x100 * b[1];
    var l3 := l2 + 0x1_0000 * b[2];
    var l4 := l3 + 0x100_0000 * b[3];
    var l5 := l4 + 0x1_0000_0000 * b[4];
    var l6 := l5 + 0x100_0000_0000 * b[5];
    var l7 := l6 + 0x1_0000_0000_0000 * b[6];
    ByteIs(w, 0, 0, b[0], h0);
    ByteIs(w, 1, l1, b[1], h1);
    ByteIs(w, 2, l2, b[2], h2);
    ByteIs(w, 3, l3, b[3], h3);
    ByteIs(w, 4, l4, b[4], h4);
    ByteIs(w, 5, l5, b[5], h5);
    ByteIs(w, 6, l6, b[6], h6);
    ByteIs(w, 7, l7, b[7], h7);
  }

  /** Every word has eight bytes. */
  lemma HasBytes(w: Word) returns (b: seq<nat>)
    ensures |b| == 8 && w == FromBytes(b) && forall k :: 0 <= k < 8 ==> WordByte(w, k) == b[k] < 0x100
  {
    var q1 := w / 0x100;
    var q2 := q1 / 0x100;
    var q3 := q2 / 0x100;
    var q4 := q3 / 0x100;
    var q5 := q4 / 0x100;
    var q6 := q5 / 0x100;
    var q7 := q6 / 0x100;
    b := [w % 0x100, q1 % 0x100, q2 % 0x100, q3 % 0x100, q4 % 0x100, q5 % 0x100, q6 % 0x100, q7];
    hide WordByte;
    BytesOf(w, b);
  }

  /** Setting a byte sets that byte and no other. */
  lemma SetWordByteSpec(w: Word, k: nat, v: Byte, j: nat)
    requires k < 8 && j < 8
    ensures WordByte(SetWordByte(w, k, v), j) == if j == k then v else WordByte(w, j)
  {
    var b := HasBytes(w);
    hide WordByte;
    assert SetWordByte(w, k, v) == FromBytes(b[k := v]);
    BytesOf(SetWordByte(w, k, v), b[k := v]);
  }

  lemma SetFrameByteSpec(f: Frame, off: nat, v: Byte, o: nat)
    requires off < 0x1000 && o < 0x1000
    ensures FrameByte(SetFrameByte(f, off, v), o) == if o == off then v else FrameByte(f, o)
  {
    if o / 8 == off / 8 {
      SetWordByteSpec(f[off / 8], off % 8, v, o % 8);
    }
    hide SetWordByte, WordByte;
  }

  lemma ZeroByte(off: nat)
    requires off < 0x1000
    ensures FrameByte(Zeros(), off) == 0
  {
  }
}
