/** The PEF container format: finding a section header in an arbitrary blob. */
module PefContainer {
  import opened Words
  import opened Bytes

  /** Sizes of the packed, 8-aligned structures. */
  const CONTAINER_SIZE: nat := 64
  const HEADER_SIZE: nat := 304

  const MAX_SECTIONS: nat := 64
  const MAX_IMAGE: nat := 0x400_0000
  const BASE_ORIGIN: nat := 0x4000_0000
  const ABI: nat := 0x5046

  /** kPefArchAMD64. */
  const PLATFORM: nat := 1

  const KIND_CODE: int := 0xC
  const KIND_DATA: int := 0xD
  const KIND_ZERO: int := 0xE

  const MAGIC: seq<Byte> := [0x4F, 0x70, 0x65, 0x6E]
  const MAGIC_FAT: seq<Byte> := [0x6E, 0x65, 0x70, 0x4F]

  /** The fields of PEFCommandHeader the loader reads. */
  datatype Header = Header(
    name: seq<Byte>,
    cpu: nat,
    kind: nat,
    offset: Word,
    offsetSize: Word,
    vmAddress: Word,
    vmSize: Word)

  /** The fields of PEFContainer the loader reads. */
  datatype Container = Container(magic: seq<Byte>, abi: nat, count: Word)

  function ParseContainer(blob: seq<Byte>): Container
    requires |blob| >= 64
  {
    Container(blob[..4], Le4(blob, 17), Le8(blob, 45))
  }

  function ParseHeader(blob: seq<Byte>, at: nat): (h: Header)
    requires at + 304 <= |blob|
    ensures |h.name| == 256
  {
    Header(blob[at..at + 256], Le4(blob, at + 256), Le2(blob, at + 268), Le8(blob, at + 270), Le8(blob, at + 278),
           Le8(blob, at + 286), Le8(blob, at + 294))
  }

  /** pef_read_container, for a blob that is there. */
  predicate ContainerOk(blob: seq<Byte>) {
    && |blob| >= 64
    && var c := ParseContainer(blob);
    && (c.magic == MAGIC || c.magic == MAGIC_FAT)
    && c.abi == ABI
    && 1 <= c.count <= MAX_SECTIONS
    && c.count <= (|blob| - 64) / 304
  }

  /** The characters before the first zero. */
  function CString(s: seq<Byte>): (r: seq<Byte>)
    ensures |r| <= |s|
    ensures forall i :: 0 <= i < |r| ==> r[i] == s[i] != 0
    ensures |r| < |s| ==> s[|r|] == 0
  {
    if s == [] || s[0] == 0 then [] else [s[0]] + CString(s[1..])
  }

  /** The length of a terminated prefix determines the string. */
  lemma {:induction false} CStringLength(s: seq<Byte>, n: nat)
    requires n <= |s| && (forall i :: 0 <= i < n ==> s[i] != 0) && (n < |s| ==> s[n] == 0)
    ensures CString(s) == s[..n]
  {
    if n > 0 {
      CStringLength(s[1..], n - 1);
      assert s[..n] == [s[0]] + s[1..][..n - 1];
    }
  }

  /** A header name and a wanted name agree as terminated strings. */
  predicate SameName(field: seq<Byte>, want: seq<Byte>) {
    CString(field) == CString(want) && |CString(field)| < 256
  }

  /** A string of n characters ends inside the field. */
  predicate EndsAt(s: seq<Byte>, n: nat) {
    n < |s| && s[n] == 0 && forall i :: 0 <= i < n ==> s[i] != 0
  }

  /** They agree exactly when both end after the same characters; a field without a terminator has no such end. */
  lemma SameNameExact(field: seq<Byte>, want: seq<Byte>)
    requires |field| == 256 && |want| == 256
    ensures SameName(field, want) <==> exists n: nat :: EndsAt(field, n) && EndsAt(want, n) && field[..n] == want[..n]
  {
    hide CString;
    if SameName(field, want) {
      var n := |CString(field)|;
      assert CString(want)[..n] == CString(field)[..n];
      assert EndsAt(field, n) && EndsAt(want, n);
      assert field[..n] == CString(field) && want[..n] == CString(want);
    }
    if n: nat :| EndsAt(field, n) && EndsAt(want, n) && field[..n] == want[..n] {
      CStringLength(field, n);
      CStringLength(want, n);
    }
  }

  /** rt_string_len with a bound. */
  method StringLen(s: seq<Byte>, max: nat) returns (n: nat)
    requires max <= |s|
    ensures n == |CString(s[..max])| && CString(s[..max]) == s[..n]
  {
    n := 0;
    while n < max && s[n] != 0
      invariant n <= max && forall i :: 0 <= i < n ==> s[i] != 0
    {
      n := n + 1;
    }
    CStringLength(s[..max], n);
    assert s[..max][..n] == s[..n];
  }

  /** pef_name_eq: an unterminated field never matches. */
  method NameEq(field: seq<Byte>, want: seq<Byte>) returns (same: bool)
    requires |field| == 256 && |want| == 256
    ensures same <==> SameName(field, want)
  {
    hide CString;
    assert field[..256] == field && want[..256] == want;
    var fieldLen := StringLen(field, 256);
    if fieldLen >= 256 { return false; }
    var wantLen := StringLen(want, 256);
    if wantLen != fieldLen { return false; }
    var i := 0;
    while i < fieldLen
      invariant i <= fieldLen && field[..i] == want[..i]
    {
      if field[i] != want[i] {
        assert field[..fieldLen][i] != want[..fieldLen][i];
        return false;
      }
      i := i + 1;
    }
    return true;
  }

  // ---------------------------------------------------------------- the section header search

  predicate Matches(h: Header, name: seq<Byte>, kind: int) {
    h.kind == kind && SameName(h.name, name)
  }

  function HeaderAt(blob: seq<Byte>, i: nat): (h: Header)
    requires 64 + (i + 1) * 304 <= |blob|
    ensures |h.name| == 256
  {
    ParseHeader(blob, 64 + i * 304)
  }

  /** What a section must satisfy, over unbounded integers: a virtual range inside the image window, and content, if
      any, inside the blob and past the header table; a thin container only holds code for this machine. */
  predicate SectionOk(h: Header, size: nat, count: nat, fat: bool) {
    && (fat || h.cpu == PLATFORM)
    && 1 <= h.vmSize
    && BASE_ORIGIN <= h.vmAddress && h.vmAddress + h.vmSize <= BASE_ORIGIN + MAX_IMAGE
    && h.offsetSize <= h.vmSize
    && (h.offsetSize > 0 ==>
          CONTAINER_SIZE + count * HEADER_SIZE <= h.offset && h.offset + h.offsetSize <= size)
  }

  /** Header i is the first one of the wanted kind and name. */
  predicate IsFirst(blob: seq<Byte>, i: nat, name: seq<Byte>, kind: int)
    requires 64 + (i + 1) * 304 <= |blob|
  {
    && Matches(HeaderAt(blob, i), name, kind)
    && forall j {:trigger HeaderAt(blob, j)} :: 0 <= j < i ==> !Matches(HeaderAt(blob, j), name, kind)
  }

  /** The section the blob offers under a name and kind, if it has an acceptable one. */
  ghost predicate Offers(blob: seq<Byte>, name: seq<Byte>, kind: int, h: Header) {
    && ContainerOk(blob)
    && var c := ParseContainer(blob);
    && exists i: nat ::
         && i < c.count && 64 + (i + 1) * 304 <= |blob|
         && IsFirst(blob, i, name, kind) && h == HeaderAt(blob, i)
         && SectionOk(h, |blob|, c.count, c.magic == MAGIC_FAT)
  }

  /** The checks as the source makes them, in wrapping 64-bit arithmetic. */
  predicate SectionChecks(h: Header, size: Word, count: nat, fat: bool) {
    if h.cpu != PLATFORM && !fat then false
    else if h.vmSize < 1 || h.vmSize > 0x400_0000 then false
    else if h.vmAddress < 0x4000_0000 then false
    else if Sub64(h.vmAddress, 0x4000_0000) > Sub64(0x400_0000, h.vmSize) then false
    else if h.offsetSize > h.vmSize then false
    else if h.offsetSize > 0 && h.offset > size then false
    else if h.offsetSize > 0 && h.offsetSize > Sub64(size, h.offset) then false
    else if h.offsetSize > 0 && h.offset < Add64(64, count * 304) then false
    else true
  }

  /** No wrap-around ever decides a check: they accept exactly the acceptable sections. */
  lemma ChecksExact(h: Header, size: Word, count: nat, fat: bool)
    requires count <= 64
    ensures SectionChecks(h, size, count, fat) <==> SectionOk(h, size, count, fat)
  {
    assert Add64(64, count * 304) == 64 + count * 304;
    if 0x4000_0000 <= h.vmAddress {
      assert Sub64(h.vmAddress, 0x4000_0000) == h.vmAddress - 0x4000_0000;
    }
    if h.vmSize <= 0x400_0000 {
      assert Sub64(0x400_0000, h.vmSize) == 0x400_0000 - h.vmSize;
    }
    if h.offset <= size {
      assert Sub64(size, h.offset) == size - h.offset;
    }
    hide Add64, Sub64;
  }

  datatype Found = NotFound | Found(header: Header)

  /** The search loop from header i on. */
  function SearchFrom(blob: seq<Byte>, name: seq<Byte>, kind: int, i: nat): Found
    requires ContainerOk(blob) && |blob| < 0x1_0000_0000_0000_0000
    decreases |blob| - 304 * i
  {
    var c := ParseContainer(blob);
    if i >= c.count then NotFound
    else
      assert 64 + (i + 1) * 304 <= |blob|;
      var h := HeaderAt(blob, i);
      if !Matches(h, name, kind) then SearchFrom(blob, name, kind, i + 1)
      else if SectionChecks(h, |blob|, c.count, c.magic == MAGIC_FAT) then Found(h)
      else NotFound
  }

  /** pef_find_section. */
  function FindSection(blob: seq<Byte>, name: seq<Byte>, kind: int): Found
    requires |blob| < 0x1_0000_0000_0000_0000
  {
    if ContainerOk(blob) then SearchFrom(blob, name, kind, 0) else NotFound
  }

  /** Every header of an accepted container lies inside the blob. */
  lemma ContainerFits(blob: seq<Byte>)
    requires ContainerOk(blob)
    ensures |blob| >= 64 && ParseContainer(blob).count <= 64 && 64 + ParseContainer(blob).count * 304 <= |blob|
  {
  }

  /** The search ends behind the last header. */
  lemma SearchEnds(blob: seq<Byte>, name: seq<Byte>, kind: int, i: nat)
    requires ContainerOk(blob) && |blob| < 0x1_0000_0000_0000_0000 && ParseContainer(blob).count <= i
    ensures SearchFrom(blob, name, kind, i) == NotFound
  {
    hide ContainerOk, ParseContainer, HeaderAt;
  }

  /** One turn of the search. */
  lemma SearchTurn(blob: seq<Byte>, name: seq<Byte>, kind: int, i: nat)
    requires ContainerOk(blob) && |blob| < 0x1_0000_0000_0000_0000 && i < ParseContainer(blob).count
    requires 64 + (i + 1) * 304 <= |blob|
    ensures var c := ParseContainer(blob);
      var h := HeaderAt(blob, i);
      var r := SearchFrom(blob, name, kind, i);
      if !Matches(h, name, kind) then r == SearchFrom(blob, name, kind, i + 1)
      else r == if SectionChecks(h, |blob|, c.count, c.magic == MAGIC_FAT) then Found(h) else NotFound
  {
    hide Matches, SectionChecks, ContainerOk, ParseContainer, HeaderAt;
  }

  /** None of the headers before i matches. */
  ghost predicate NoneBefore(blob: seq<Byte>, i: nat, name: seq<Byte>, kind: int) {
    forall j {:trigger HeaderAt(blob, j)} :: 0 <= j < i && 64 + (j + 1) * 304 <= |blob| ==>
      !Matches(HeaderAt(blob, j), name, kind)
  }

  lemma NoneBeforeNext(blob: seq<Byte>, i: nat, name: seq<Byte>, kind: int)
    requires NoneBefore(blob, i, name, kind) && 64 + (i + 1) * 304 <= |blob|
    ensures if Matches(HeaderAt(blob, i), name, kind) then IsFirst(blob, i, name, kind)
      else NoneBefore(blob, i + 1, name, kind)
  {
    hide Matches, HeaderAt;
  }

  lemma NoneOffered(blob: seq<Byte>, name: seq<Byte>, kind: int, i: nat, g: Header)
    requires ContainerOk(blob) && ParseContainer(blob).count <= i
    requires NoneBefore(blob, i, name, kind)
    ensures !Offers(blob, name, kind, g)
  {
    hide Matches, SectionOk, ParseContainer, HeaderAt, ContainerOk;
  }

  lemma HeaderInside(blob: seq<Byte>, i: nat)
    requires ContainerOk(blob) && i < ParseContainer(blob).count
    ensures 64 + (i + 1) * 304 <= |blob| && ParseContainer(blob).count <= 64
  {
    ContainerFits(blob);
    hide ContainerOk, ParseContainer;
  }

  /** At the first matching header. */
  lemma SearchHit(blob: seq<Byte>, name: seq<Byte>, kind: int, i: nat, g: Header)
    requires ContainerOk(blob) && |blob| < 0x1_0000_0000_0000_0000 && i < ParseContainer(blob).count
    requires 64 + (i + 1) * 304 <= |blob| && IsFirst(blob, i, name, kind) && ParseContainer(blob).count <= 64
    ensures SearchFrom(blob, name, kind, i) == Found(g) <==> Offers(blob, name, kind, g)
  {
    hide *;
    var c := ParseContainer(blob);
    FirstMatches(blob, i, name, kind);
    SearchTurn(blob, name, kind, i);
    ChecksExact(HeaderAt(blob, i), |blob|, c.count, c.magic == MAGIC_FAT);
    FirstDecides(blob, name, kind, i, g);
  }

  lemma FirstMatches(blob: seq<Byte>, i: nat, name: seq<Byte>, kind: int)
    requires 64 + (i + 1) * 304 <= |blob| && IsFirst(blob, i, name, kind)
    ensures Matches(HeaderAt(blob, i), name, kind)
  {
  }

  /** From header i on, where no earlier header matched, the search finds exactly what the blob offers. */
  lemma {:induction false} SearchExact(blob: seq<Byte>, name: seq<Byte>, kind: int, i: nat, g: Header)
    requires ContainerOk(blob) && |blob| < 0x1_0000_0000_0000_0000 && i <= ParseContainer(blob).count
    requires NoneBefore(blob, i, name, kind)
    ensures SearchFrom(blob, name, kind, i) == Found(g) <==> Offers(blob, name, kind, g)
    decreases ParseContainer(blob).count - i
  {
    hide *;
    ContainerFits(blob);
    if i < ParseContainer(blob).count {
      HeaderInside(blob, i);
      SearchTurn(blob, name, kind, i);
      NoneBeforeNext(blob, i, name, kind);
      if !Matches(HeaderAt(blob, i), name, kind) {
        SearchExact(blob, name, kind, i + 1, g);
      } else {
        SearchHit(blob, name, kind, i, g);
      }
    } else {
      SearchEnds(blob, name, kind, i);
      NoneOffered(blob, name, kind, i, g);
    }
  }

  /** The first matching header decides what the blob offers. */
  lemma FirstDecides(blob: seq<Byte>, name: seq<Byte>, kind: int, i: nat, g: Header)
    requires ContainerOk(blob) && i < ParseContainer(blob).count && 64 + (i + 1) * 304 <= |blob|
    requires IsFirst(blob, i, name, kind)
    ensures var c := ParseContainer(blob);
      Offers(blob, name, kind, g) <==> g == HeaderAt(blob, i) && SectionOk(g, |blob|, c.count, c.magic == MAGIC_FAT)
  {
    hide Matches, SectionOk, ParseContainer, HeaderAt, ContainerOk;
  }

  /** pef_find_section succeeds with h exactly when h is what the blob offers. */
  lemma FindSectionExact(blob: seq<Byte>, name: seq<Byte>, kind: int, h: Header)
    requires |blob| < 0x1_0000_0000_0000_0000
    ensures FindSection(blob, name, kind) == Found(h) <==> Offers(blob, name, kind, h)
  {
    if ContainerOk(blob) {
      SearchExact(blob, name, kind, 0, h);
    }
  }

  /** pef_find_section as the source runs it: a loop over the headers and an out parameter. */
  method FindSectionLoop(blob: seq<Byte>, name: seq<Byte>, kind: int) returns (found: bool, h: Header)
    requires |blob| < 0x1_0000_0000_0000_0000 && |name| == 256
    ensures FindSection(blob, name, kind) == if found then Found(h) else NotFound
    ensures forall g :: Offers(blob, name, kind, g) <==> found && g == h
  {
    hide Offers, ContainerOk, ParseContainer, HeaderAt, SameName, SectionChecks, SearchFrom;
    forall g
      ensures FindSection(blob, name, kind) == Found(g) <==> Offers(blob, name, kind, g)
    {
      FindSectionExact(blob, name, kind, g);
    }
    h := Header([], 0, 0, 0, 0, 0, 0);
    var ok := ContainerOk(blob);
    if !ok { return false, h; }
    ContainerFits(blob);
    var c := ParseContainer(blob);
    var i := 0;
    while i < c.count
      invariant i <= c.count
      invariant SearchFrom(blob, name, kind, i) == FindSection(blob, name, kind)
    {
      SearchTurn(blob, name, kind, i);
      h := HeaderAt(blob, i);
      var same := false;
      if h.kind == kind {
        same := NameEq(h.name, name);
      }
      if same {
        found := SectionChecks(h, |blob|, c.count, c.magic == MAGIC_FAT);
        return found, h;
      }
      i := i + 1;
    }
    SearchEnds(blob, name, kind, i);
    return false, h;
  }

  // ---------------------------------------------------------------- section names

  /** The section-name prefix of a kind. */
  function Prefix(kind: int): seq<Byte> {
    if kind == KIND_CODE then [0x2E, 0x63, 0x6F, 0x64, 0x65, 0x36, 0x34]
    else if kind == KIND_DATA then [0x2E, 0x64, 0x61, 0x74, 0x61, 0x36, 0x34]
    else if kind == KIND_ZERO then [0x2E, 0x7A, 0x65, 0x72, 0x6F, 0x36, 0x34]
    else []
  }

  /** Spaces become dollar signs. */
  function Mangle(name: seq<Byte>): (r: seq<Byte>)
    ensures |r| == |name|
    ensures forall i :: 0 <= i < |name| ==> r[i] == if name[i] == 0x20 then 0x24 else name[i]
  {
    if name == [] then [] else [if name[0] == 0x20 then 0x24 else name[0]] + Mangle(name[1..])
  }

  /** pef_make_name into a zeroed 256-byte buffer, for the characters of a terminated name; empty when it fails. */
  function MakeName(kind: int, name: seq<Byte>): (r: seq<Byte>)
    ensures r == [] || |r| == 256
  {
    if Prefix(kind) == [] || |name| >= 256 - 7 then []
    else Prefix(kind) + Mangle(name) + seq(256 - 7 - |name|, _ => 0)
  }

  /** The section name made is the prefix and the mangled name, terminated inside the buffer. */
  lemma MakeNameSpec(kind: int, name: seq<Byte>)
    requires MakeName(kind, name) != [] && 0 !in name
    ensures CString(MakeName(kind, name)) == Prefix(kind) + Mangle(name) && |CString(MakeName(kind, name))| < 256
  {
    var r := MakeName(kind, name);
    var head := Prefix(kind) + Mangle(name);
    var n := 7 + |name|;
    assert |head| == n && r == head + seq(256 - n, _ => 0);
    PrefixNonzero(kind);
    hide Prefix, Mangle, MakeName, CString;
    forall i | 0 <= i < n
      ensures r[i] == head[i] != 0
    {
      if i >= 7 { assert name[i - 7] in name; }
    }
    CStringLength(r, n);
    assert r[..n] == head;
  }

  lemma PrefixNonzero(kind: int)
    ensures forall i :: 0 <= i < |Prefix(kind)| ==> Prefix(kind)[i] != 0
  {
  }

  /** A buffer with the prefix, the mangled name and zeros. */
  lemma NameParts(buffer: seq<Byte>, prefix: seq<Byte>, name: seq<Byte>)
    requires |buffer| == 256 && |prefix| == 7 && |name| < 256 - 7
    requires forall k :: 0 <= k < 7 ==> buffer[k] == prefix[k]
    requires forall k :: 7 <= k < 7 + |name| ==> buffer[k] == if name[k - 7] == 0x20 then 0x24 else name[k - 7]
    requires forall k :: 7 + |name| <= k < 256 ==> buffer[k] == 0
    ensures buffer == prefix + Mangle(name) + seq(256 - 7 - |name|, _ => 0)
  {
    hide Mangle;
    forall k | 7 <= k < 7 + |name|
      ensures buffer[k] == Mangle(name)[k - 7]
    {
    }
  }

  /** pef_make_name into the zeroed buffer of FindSymbol. */
  method WriteName(dst: array<Byte>, kind: int, name: seq<Byte>) returns (ok: bool)
    requires dst.Length == 256 && dst[..] == seq(256, _ => 0)
    modifies dst
    ensures ok <==> MakeName(kind, name) != []
    ensures ok ==> dst[..] == MakeName(kind, name)
  {
    var prefix := Prefix(kind);
    if prefix == [] { return false; }
    var n := |name|;
    if n >= 256 - 7 { return false; }
    hide Mangle, Prefix;
    forall i | 0 <= i < 7 {
      dst[i] := prefix[i];
    }
    forall i | 0 <= i < n {
      dst[7 + i] := name[i];
    }
    var i := 7;
    while i < 7 + n
      invariant 7 <= i <= 7 + n
      invariant forall k :: 0 <= k < 7 ==> dst[k] == prefix[k]
      invariant forall k :: 7 <= k < 7 + n ==>
                  dst[k] == if k < i && name[k - 7] == 0x20 then 0x24 else name[k - 7]
      invariant forall k :: 7 + n <= k < 256 ==> dst[k] == 0
    {
      if dst[i] == 0x20 { dst[i] := 0x24; }
      i := i + 1;
    }
    dst[7 + n] := 0;
    NameParts(dst[..], prefix, name);
    return true;
  }
}
