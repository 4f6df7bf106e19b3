/**
 * MmCopyMemory and MmFillMemory (private/libSystem/src/System.cpp) on one array of bytes whose indices are the
 * addresses; address 0 is the null pointer.
 */
module SystemMemory {
  /** What memmove leaves: n bytes from s stand at d, everything else is as it was. */
  function Moved(m: seq<bv8>, d: nat, s: nat, n: nat): (r: seq<bv8>)
    requires d + n <= |m| && s + n <= |m|
    ensures |r| == |m|
  {
    m[..d] + m[s..s + n] + m[d + n..]
  }

  lemma MovedAt(m: seq<bv8>, d: nat, s: nat, n: nat, k: nat)
    requires d + n <= |m| && s + n <= |m| && k < |m|
    ensures Moved(m, d, s, n)[k] == if d <= k < d + n then m[k - d + s] else m[k]
  {
  }

  /** Moving a chunk above what was moved, when no source byte ahead has been overwritten. */
  lemma MovedUp(m: seq<bv8>, d: nat, s: nat, i: nat, n: nat)
    requires d + i + n <= |m| && s + i + n <= |m| && (d <= s || s + i + n <= d)
    ensures Moved(Moved(m, d, s, i), d + i, s + i, n) == Moved(m, d, s, i + n)
  {
    var r, r' := Moved(Moved(m, d, s, i), d + i, s + i, n), Moved(m, d, s, i + n);
    hide Moved;
    forall k | 0 <= k < |m|
      ensures r[k] == r'[k]
    {
      UpAt(m, d, s, i, n, k);
    }
  }

  lemma UpAt(m: seq<bv8>, d: nat, s: nat, i: nat, n: nat, k: nat)
    requires d + i + n <= |m| && s + i + n <= |m| && (d <= s || s + i + n <= d) && k < |m|
    ensures Moved(Moved(m, d, s, i), d + i, s + i, n)[k] == Moved(m, d, s, i + n)[k]
  {
    hide Moved;
    MovedAt(Moved(m, d, s, i), d + i, s + i, n, k);
    MovedAt(m, d, s, i + n, k);
    MovedAt(m, d, s, i, if d + i <= k < d + i + n then k - d + s else k);
  }

  /** Moving a chunk below what was moved, towards higher addresses. */
  lemma MovedDown(m: seq<bv8>, d: nat, s: nat, i: nat, n: nat)
    requires d + n + i <= |m| && s < d
    ensures Moved(Moved(m, d + n, s + n, i), d, s, n) == Moved(m, d, s, n + i)
  {
    var r, r' := Moved(Moved(m, d + n, s + n, i), d, s, n), Moved(m, d, s, n + i);
    hide Moved;
    forall k | 0 <= k < |m|
      ensures r[k] == r'[k]
    {
      DownAt(m, d, s, i, n, k);
    }
  }

  lemma DownAt(m: seq<bv8>, d: nat, s: nat, i: nat, n: nat, k: nat)
    requires d + n + i <= |m| && s < d && k < |m|
    ensures Moved(Moved(m, d + n, s + n, i), d, s, n)[k] == Moved(m, d, s, n + i)[k]
  {
    hide Moved;
    MovedAt(Moved(m, d + n, s + n, i), d, s, n, k);
    MovedAt(m, d, s, n + i, k);
    MovedAt(m, d + n, s + n, i, if d <= k < d + n then k - d + s else k);
  }

  /** The backward word copy is chosen and leaves a remainder. */
  predicate Skewed(d: nat, s: nat, len: nat) {
    s < d < s + len && len >= 8 && (s + len) % 8 == 0 && (d + len) % 8 == 0 && len % 8 != 0
  }

  /** What MmCopyMemory leaves. */
  function Copied(m: seq<bv8>, d: nat, s: nat, len: nat): (r: seq<bv8>)
    requires d + len <= |m| && s + len <= |m|
  {
    if !Skewed(d, s, len) then Moved(m, d, s, len)
    else
      var rem := len % 8;
      Moved(Moved(m, d + rem, s + rem, len - rem), d + len - rem, s + len - rem, rem)
  }

  /** Eight bytes stored at once. */
  lemma WordStored(m: seq<bv8>, d: nat, word: seq<bv8>, r: seq<bv8>)
    requires |word| == 8 && d + 8 <= |m| == |r|
    requires forall k :: 0 <= k < 8 ==> r[d + k] == word[k]
    requires forall k :: 0 <= k < |m| && !(d <= k < d + 8) ==> r[k] == m[k]
    ensures r == m[..d] + word + m[d + 8..]
  {
    forall k | 0 <= k < |m|
      ensures r[k] == (m[..d] + word + m[d + 8..])[k]
    {
      if d <= k < d + 8 {
        var j := k - d;
        assert r[d + j] == word[j];
      }
    }
  }

  /** A 64-bit load and store. */
  method CopyWord(mem: array<bv8>, d: nat, s: nat)
    requires d + 8 <= mem.Length && s + 8 <= mem.Length
    modifies mem
    ensures mem[..] == Moved(old(mem[..]), d, s, 8)
  {
    var word := mem[s..s + 8];
    forall k | 0 <= k < 8 {
      mem[d + k] := word[k];
    }
    WordStored(old(mem[..]), d, word, mem[..]);
  }

  /** One byte. */
  method CopyByte(mem: array<bv8>, d: nat, s: nat)
    requires d < mem.Length && s < mem.Length
    modifies mem
    ensures mem[..] == Moved(old(mem[..]), d, s, 1)
  {
    ghost var m := mem[..];
    mem[d] := mem[s];
    assert mem[..] == m[d := m[s]];
    assert m[d := m[s]] == Moved(m, d, s, 1);
  }

  /** MmCopyMemory. */
  method CopyMemory(mem: array<bv8>, dest: nat, src: nat, len: nat) returns (r: nat)
    requires len > 0 && dest != 0 && src != 0 ==> dest + len <= mem.Length && src + len <= mem.Length
    modifies mem
    ensures len == 0 || dest == 0 || src == 0 ==> r == 0 && mem[..] == old(mem[..])
    ensures len > 0 && dest != 0 && src != 0 ==> r == dest && mem[..] == Copied(old(mem[..]), dest, src, len)
  {
    if len == 0 || dest == 0 || src == 0 { return 0; }
    hide Moved;
    ghost var m := mem[..];
    if dest == src {
      MovedSame(m, dest, len);
      return dest;
    }
    if dest > src && dest < src + len {
      CopyDown(mem, dest, src, len);
    } else {
      NotSkewed(m, dest, src, len);
      CopyUp(mem, dest, src, len);
    }
    return dest;
  }

  /** The target starts inside the source: copy from the end. */
  method CopyDown(mem: array<bv8>, dest: nat, src: nat, len: nat)
    requires src < dest < src + len && dest + len <= mem.Length
    modifies mem
    ensures mem[..] == Copied(old(mem[..]), dest, src, len)
  {
    hide Moved;
    if len >= 8 && (src + len) % 8 == 0 && (dest + len) % 8 == 0 {
      var rem := len % 8;
      WordsDown(mem, dest, src, len);
      if rem == 0 {
        MovedNone(mem[..], dest + len, src + len);
      }
      BytesDown(mem, dest + len - rem, src + len - rem, rem);
    } else {
      BytesDown(mem, dest, src, len);
    }
  }

  /** Otherwise copy from the start. */
  method CopyUp(mem: array<bv8>, dest: nat, src: nat, len: nat)
    requires dest <= src || src + len <= dest
    requires dest + len <= mem.Length && src + len <= mem.Length
    modifies mem
    ensures mem[..] == Moved(old(mem[..]), dest, src, len)
  {
    hide Moved;
    ghost var m := mem[..];
    if len >= 8 && src % 8 == 0 && dest % 8 == 0 {
      WordsUp(mem, dest, src, len);
      BytesUp(mem, dest, src, len - len % 8, len, m);
    } else {
      MovedNone(m, dest, src);
      BytesUp(mem, dest, src, 0, len, m);
    }
  }

  /** Byte by byte from the end. */
  method BytesDown(mem: array<bv8>, d: nat, s: nat, n: nat)
    requires s < d && d + n <= mem.Length
    modifies mem
    ensures mem[..] == Moved(old(mem[..]), d, s, n)
  {
    hide Moved;
    ghost var m := mem[..];
    MovedNone(m, d + n, s + n);
    var i := 0;
    while i < n
      invariant 0 <= i <= n && mem[..] == Moved(m, d + n - i, s + n - i, i)
    {
      MovedDown(m, d + n - 1 - i, s + n - 1 - i, i, 1);
      CopyByte(mem, d + n - 1 - i, s + n - 1 - i);
      i := i + 1;
    }
  }

  /** Word by word from the end; the len % 8 lowest bytes stay behind. */
  method WordsDown(mem: array<bv8>, d: nat, s: nat, len: nat)
    requires s < d && d + len <= mem.Length
    modifies mem
    ensures mem[..] == Moved(old(mem[..]), d + len % 8, s + len % 8, len - len % 8)
  {
    hide Moved;
    ghost var m := mem[..];
    MovedNone(m, d + len, s + len);
    var words, i := len / 8, 0;
    while i < words
      invariant 0 <= i <= words && mem[..] == Moved(m, d + len - 8 * i, s + len - 8 * i, 8 * i)
    {
      MovedDown(m, d + len - 8 * i - 8, s + len - 8 * i - 8, 8 * i, 8);
      CopyWord(mem, d + len - 8 * i - 8, s + len - 8 * i - 8);
      i := i + 1;
    }
  }

  /** Byte by byte from `offset` on, after the bytes before it. */
  method BytesUp(mem: array<bv8>, d: nat, s: nat, offset: nat, len: nat, ghost m: seq<bv8>)
    requires offset <= len && d + len <= |m| == mem.Length && s + len <= |m| && (d <= s || s + len <= d)
    requires mem[..] == Moved(m, d, s, offset)
    modifies mem
    ensures mem[..] == Moved(m, d, s, len)
  {
    hide Moved;
    var i := offset;
    while i < len
      invariant offset <= i <= len && mem[..] == Moved(m, d, s, i)
    {
      MovedUp(m, d, s, i, 1);
      CopyByte(mem, d + i, s + i);
      i := i + 1;
    }
  }

  method WordsUp(mem: array<bv8>, d: nat, s: nat, len: nat)
    requires d + len <= mem.Length && s + len <= mem.Length && (d <= s || s + len <= d)
    modifies mem
    ensures mem[..] == Moved(old(mem[..]), d, s, len - len % 8)
  {
    hide Moved;
    ghost var m := mem[..];
    MovedNone(m, d, s);
    var words, i := len / 8, 0;
    while i < words
      invariant 0 <= i <= words && mem[..] == Moved(m, d, s, 8 * i)
    {
      MovedUp(m, d, s, 8 * i, 8);
      CopyWord(mem, d + 8 * i, s + 8 * i);
      i := i + 1;
    }
  }

  lemma MovedNone(m: seq<bv8>, d: nat, s: nat)
    requires d <= |m| && s <= |m|
    ensures Moved(m, d, s, 0) == m
  {
  }

  lemma MovedSame(m: seq<bv8>, d: nat, n: nat)
    requires d + n <= |m|
    ensures Moved(m, d, d, n) == m
  {
  }

  /** MmCopyMemory does what memmove does, whatever the memory holds. */
  ghost predicate Exact(size: nat, d: nat, s: nat, len: nat)
    requires d + len <= size && s + len <= size
  {
    forall m: seq<bv8> :: |m| == size ==> Copied(m, d, s, len) == Moved(m, d, s, len)
  }

  /** It does unless the target starts inside the source, both end at a multiple of 8, and at least a word is copied
      that leaves a remainder. */
  lemma CopyIsMove(size: nat, d: nat, s: nat, len: nat)
    requires d + len <= size && s + len <= size
    ensures Exact(size, d, s, len) <==>
      !(s < d < s + len && len >= 8 && (s + len) % 8 == 0 && (d + len) % 8 == 0 && len % 8 != 0)
  {
    ExactUnless(size, d, s, len);
    hide Exact;
  }

  lemma ExactUnless(size: nat, d: nat, s: nat, len: nat)
    requires d + len <= size && s + len <= size
    ensures Exact(size, d, s, len) <==> !Skewed(d, s, len)
  {
    hide *;
    if Skewed(d, s, len) {
      SkewedIs(d, s, len);
      var m := Marked(size, s);
      SkewedLoses(m, d, s, len);
      if Exact(size, d, s, len) {
        ExactOn(m, d, s, len);
        assert false;
      }
    } else {
      forall m: seq<bv8> | |m| == size
        ensures Copied(m, d, s, len) == Moved(m, d, s, len)
      {
        NotSkewed(m, d, s, len);
      }
      ExactFrom(size, d, s, len);
    }
  }

  /** A memory of zeros with one byte set. */
  function Marked(size: nat, s: nat): (m: seq<bv8>)
    requires s < size
    ensures |m| == size && m[s] == 1 && forall k :: 0 <= k < size && k != s ==> m[k] == 0
  {
    seq(s, k => 0) + [1] + seq(size - s - 1, k => 0)
  }

  lemma SkewedIs(d: nat, s: nat, len: nat)
    requires Skewed(d, s, len)
    ensures s < d < s + len && len >= 8 && (s + len) % 8 == 0 && (d + len) % 8 == 0 && len % 8 != 0
  {
  }

  lemma ExactOn(m: seq<bv8>, d: nat, s: nat, len: nat)
    requires d + len <= |m| && s + len <= |m| && Exact(|m|, d, s, len)
    ensures Copied(m, d, s, len) == Moved(m, d, s, len)
  {
    hide Copied, Moved;
  }

  lemma ExactFrom(size: nat, d: nat, s: nat, len: nat)
    requires d + len <= size && s + len <= size
    requires forall m: seq<bv8> :: |m| == size ==> Copied(m, d, s, len) == Moved(m, d, s, len)
    ensures Exact(size, d, s, len)
  {
    hide Copied, Moved;
  }

  lemma NotSkewed(m: seq<bv8>, d: nat, s: nat, len: nat)
    requires d + len <= |m| && s + len <= |m| && !Skewed(d, s, len)
    ensures Copied(m, d, s, len) == Moved(m, d, s, len)
  {
  }

  /** In the failing case the first byte of the target keeps its content. */
  lemma SkewedLoses(m: seq<bv8>, d: nat, s: nat, len: nat)
    requires s < d < s + len && len >= 8 && (s + len) % 8 == 0 && (d + len) % 8 == 0 && len % 8 != 0
    requires d + len <= |m|
    ensures Copied(m, d, s, len)[d] == m[d] && Moved(m, d, s, len)[d] == m[s]
  {
    hide *;
    SkewedAt(m, d, s, len, len % 8, d);
    MovedAt(m, d, s, len, d);
    RestFits(len);
  }

  /** What each byte holds then: the lowest len % 8 bytes of the target keep their content, the highest are copied a
      second time, from what the words left, and the rest holds the source. */
  lemma SkewedAt(m: seq<bv8>, d: nat, s: nat, len: nat, rem: nat, k: nat)
    requires s < d < s + len && len >= 8 && (s + len) % 8 == 0 && (d + len) % 8 == 0 && len % 8 == rem != 0
    requires d + len <= |m| && k < |m|
    ensures Copied(m, d, s, len)[k] ==
      if d + rem <= k < d + len - rem then m[k - d + s]
      else if d + len - rem <= k < d + len then (if k - d + s < d + rem then m[k - d + s] else m[k - d + s - d + s])
      else m[k]
  {
    CopiedTwice(m, d, s, len);
    RestFits(len);
    hide *;
    TwiceAt(m, d, s, len, rem, k);
  }

  lemma RestFits(len: nat)
    requires len >= 8 && len % 8 != 0
    ensures 0 < len % 8 < 8 && 2 * (len % 8) < len
  {
  }

  lemma CopiedTwice(m: seq<bv8>, d: nat, s: nat, len: nat)
    requires s < d < s + len && len >= 8 && (s + len) % 8 == 0 && (d + len) % 8 == 0 && len % 8 != 0
    requires d + len <= |m|
    ensures var rem := len % 8;
      Copied(m, d, s, len) == Moved(Moved(m, d + rem, s + rem, len - rem), d + len - rem, s + len - rem, rem)
  {
    hide Moved;
  }

  lemma TwiceAt(m: seq<bv8>, d: nat, s: nat, len: nat, rem: nat, k: nat)
    requires s < d && 2 * rem < len && d + len <= |m| && k < |m|
    ensures Moved(Moved(m, d + rem, s + rem, len - rem), d + len - rem, s + len - rem, rem)[k] ==
      if d + rem <= k < d + len - rem then m[k - d + s]
      else if d + len - rem <= k < d + len then (if k - d + s < d + rem then m[k - d + s] else m[k - d + s - d + s])
      else m[k]
  {
    hide Moved;
    MovedAt(Moved(m, d + rem, s + rem, len - rem), d + len - rem, s + len - rem, rem, k);
    MovedAt(m, d + rem, s + rem, len - rem, k);
    if d + len - rem <= k < d + len {
      MovedAt(m, d + rem, s + rem, len - rem, k - d + s);
    }
  }

  /** Nine bytes moved from address 7 to 15: the first one is not moved. */
  lemma SkewedExample()
    ensures var m := Marked(24, 7);
      Copied(m, 15, 7, 9)[15] == 0 && Moved(m, 15, 7, 9)[15] == 1
  {
    SkewedLoses(Marked(24, 7), 15, 7, 9);
    hide Copied, Moved, Marked;
  }

  // ---------------------------------------------------------------- filling

  /** Byte k of a little-endian word. */
  function ByteOf(w: bv64, k: nat): bv8
    requires k < 8
  {
    ((w >> (8 * k)) & 0xFF) as bv8
  }

  /** The byte repeated by three doublings. */
  function Pattern(value: bv8): bv64 {
    var one := value as bv64;
    var two := one | (one << 8);
    var four := two | (two << 16);
    four | (four << 32)
  }

  lemma PatternBytes(value: bv8, k: nat)
    requires k < 8
    ensures ByteOf(Pattern(value), k) == value
  {
    if k == 0 {
    } else if k == 1 {
    } else if k == 2 {
    } else if k == 3 {
    } else if k == 4 {
    } else if k == 5 {
    } else if k == 6 {
    } else {
    }
  }

  function Fill(m: seq<bv8>, d: nat, n: nat, value: bv8): (r: seq<bv8>)
    requires d + n <= |m|
    ensures |r| == |m|
  {
    m[..d] + seq(n, k => value) + m[d + n..]
  }

  /** What a filled memory holds. */
  lemma FillAt(m: seq<bv8>, d: nat, n: nat, value: bv8, k: nat)
    requires d + n <= |m| && k < |m|
    ensures Fill(m, d, n, value)[k] == if d <= k < d + n then value else m[k]
  {
  }

  method StoreWord(mem: array<bv8>, d: nat, w: bv64)
    requires d + 8 <= mem.Length
    modifies mem
    ensures mem[..] == old(mem[..])[..d] + WordBytes(w) + old(mem[..])[d + 8..]
  {
    hide ByteOf;
    forall k | 0 <= k < 8 {
      mem[d + k] := ByteOf(w, k);
    }
    WordStored(old(mem[..]), d, WordBytes(w), mem[..]);
  }

  function WordBytes(w: bv64): (t: seq<bv8>)
    ensures |t| == 8
  {
    seq(8, k requires 0 <= k < 8 => ByteOf(w, k))
  }

  /** MmFillMemory. */
  method FillMemory(mem: array<bv8>, dest: nat, len: nat, value: bv8) returns (r: nat)
    requires len > 0 && dest != 0 ==> dest + len <= mem.Length
    modifies mem
    ensures len == 0 || dest == 0 ==> r == 0 && mem[..] == old(mem[..])
    ensures len > 0 && dest != 0 ==>
              r == dest && forall k :: 0 <= k < mem.Length ==>
                mem[k] == if dest <= k < dest + len then value else old(mem[k])
  {
    if len == 0 || dest == 0 { return 0; }
    hide *;
    ghost var m := mem[..];
    FillNone(m, dest, value);
    if len >= 8 && dest % 8 == 0 {
      FillWords(mem, dest, len / 8, value);
      FillBytes(mem, dest, len - len % 8, len, value, m);
    } else {
      FillBytes(mem, dest, 0, len, value, m);
    }
    forall k | 0 <= k < mem.Length
      ensures mem[..][k] == if dest <= k < dest + len then value else m[k]
    {
      FillAt(m, dest, len, value, k);
    }
    return dest;
  }

  method FillWords(mem: array<bv8>, d: nat, words: nat, value: bv8)
    requires d + 8 * words <= mem.Length
    modifies mem
    ensures mem[..] == Fill(old(mem[..]), d, 8 * words, value)
  {
    hide Fill, Pattern, WordBytes;
    ghost var m := mem[..];
    FillNone(m, d, value);
    var pattern, j := Pattern(value), 0;
    while j < words
      invariant 0 <= j <= words && mem[..] == Fill(m, d, 8 * j, value)
    {
      StoreWord(mem, d + 8 * j, pattern);
      FillWord(m, d, 8 * j, value);
      j := j + 1;
    }
  }

  method FillBytes(mem: array<bv8>, d: nat, offset: nat, len: nat, value: bv8, ghost m: seq<bv8>)
    requires offset <= len && d + len <= mem.Length == |m| && mem[..] == Fill(m, d, offset, value)
    modifies mem
    ensures mem[..] == Fill(m, d, len, value)
  {
    hide Fill;
    var i := offset;
    while i < len
      invariant offset <= i <= len && mem[..] == Fill(m, d, i, value)
    {
      FillByte(m, d, i, value);
      mem[d + i] := value;
      i := i + 1;
    }
  }

  lemma FillNone(m: seq<bv8>, d: nat, value: bv8)
    requires d <= |m|
    ensures Fill(m, d, 0, value) == m
  {
  }

  lemma FillByte(m: seq<bv8>, d: nat, n: nat, value: bv8)
    requires d + n < |m|
    ensures Fill(m, d, n, value)[d + n := value] == Fill(m, d, n + 1, value)
  {
  }

  lemma FillWord(m: seq<bv8>, d: nat, n: nat, value: bv8)
    requires d + n + 8 <= |m|
    ensures var was := Fill(m, d, n, value);
            was[..d + n] + WordBytes(Pattern(value)) + was[d + n + 8..] == Fill(m, d, n + 8, value)
  {
    hide Pattern, ByteOf;
    forall k | 0 <= k < 8
      ensures ByteOf(Pattern(value), k) == value
    {
      PatternBytes(value, k);
    }
  }
}
