/** A PEF container as its structures declare it, packed field by field, and what a symbol of a blob laid out that way
    loads as. */
module PefLayout {
  import opened Words
  import opened Bytes
  import opened Packing
  import opened PhysicalMemory
  import opened FrameAllocator
  import opened PagingManager
  import opened PagingProofs
  import opened SectionLoader
  import opened Demand
  import opened Reachability
  import opened PefContainer
  import opened PefLoader

  // ---------------------------------------------------------------- the structures

  /** PEFContainer. */
  datatype Front = Front(
    magic: seq<Byte>,
    linker: U32,
    version: U32,
    kind: U32,
    abi: U32,
    cpu: U32,
    subCpu: U32,
    start: Word,
    hdrSz: Word,
    count: Word,
    checksum: U32)
  {
    predicate Ok() { |magic| == 5 }
  }

  /** PEFCommandHeader. */
  datatype Command = Command(
    name: seq<Byte>,
    cpu: U32,
    subCpu: U32,
    flags: U32,
    kind: U16,
    offset: Word,
    offsetSize: Word,
    vmAddress: Word,
    vmSize: Word)
  {
    predicate Ok() { |name| == 256 }
  }

  /** Packed to 57 bytes; the structure is aligned to 64. */
  function PackFront(c: Front): (r: seq<Byte>)
    requires c.Ok()
    ensures |r| == 57
  {
    c.magic + Little(c.linker, 4) + Little(c.version, 4) + Little(c.kind, 4) + Little(c.abi, 4) + Little(c.cpu, 4)
    + Little(c.subCpu, 4) + Little(c.start, 8) + Little(c.hdrSz, 8) + Little(c.count, 8) + Little(c.checksum, 4)
  }

  /** Packed to 302 bytes; the structure is aligned to 304. */
  function PackCommand(h: Command): (r: seq<Byte>)
    requires h.Ok()
    ensures |r| == 302
  {
    h.name + Little(h.cpu, 4) + Little(h.subCpu, 4) + Little(h.flags, 4) + Little(h.kind, 2) + Little(h.offset, 8)
    + Little(h.offsetSize, 8) + Little(h.vmAddress, 8) + Little(h.vmSize, 8)
  }

  /** The blob starts with this container header. */
  predicate HasFront(blob: seq<Byte>, c: Front) {
    c.Ok() && |blob| >= 64 && blob[..57] == PackFront(c)
  }

  /** Behind it, one after the other, stand these section headers. */
  predicate HasCommands(blob: seq<Byte>, hs: seq<Command>) {
    64 + 304 * |hs| <= |blob| && forall i :: 0 <= i < |hs| ==> HasCommand(blob, i, hs[i])
  }

  predicate HasCommand(blob: seq<Byte>, i: nat, h: Command) {
    h.Ok() && 64 + 304 * i + 302 <= |blob| && blob[64 + 304 * i..64 + 304 * i + 302] == PackCommand(h)
  }

  /** The container and its headers lie in the blob. */
  predicate LaidOut(blob: seq<Byte>, c: Front, hs: seq<Command>) {
    HasFront(blob, c) && |hs| == c.count && HasCommands(blob, hs)
  }

  // ---------------------------------------------------------------- any blob long enough has them

  lemma FrontOf(b: seq<Byte>) returns (c: Front)
    requires |b| == 57
    ensures c.Ok() && PackFront(c) == b
  {
    hide Little;
    c := Front(b[..5], Field4(b, 5), Field4(b, 9), Field4(b, 13), Field4(b, 17), Field4(b, 21), Field4(b, 25),
               Field8(b, 29), Field8(b, 37), Field8(b, 45), Field4(b, 53));
  }

  lemma CommandOf(b: seq<Byte>) returns (h: Command)
    requires |b| == 302
    ensures h.Ok() && PackCommand(h) == b
  {
    hide Little;
    h := Command(b[..256], Field4(b, 256), Field4(b, 260), Field4(b, 264), Field2(b, 268), Field8(b, 270),
                 Field8(b, 278), Field8(b, 286), Field8(b, 294));
  }

  lemma {:induction false} CommandsOf(blob: seq<Byte>, n: nat) returns (hs: seq<Command>)
    requires 64 + 304 * n <= |blob|
    ensures |hs| == n && HasCommands(blob, hs)
    decreases n
  {
    hide PackCommand;
    if n == 0 {
      hs := [];
    } else {
      var before := CommandsOf(blob, n - 1);
      var last := CommandOf(blob[64 + 304 * (n - 1)..64 + 304 * (n - 1) + 302]);
      assert HasCommand(blob, n - 1, last);
      hide HasCommand;
      hs := before + [last];
    }
  }

  /** Every blob of 64 bytes or more has a container header. */
  lemma FrontExists(blob: seq<Byte>) returns (c: Front)
    requires |blob| >= 64
    ensures HasFront(blob, c)
  {
    c := FrontOf(blob[..57]);
    hide PackFront;
  }

  /** And as many section headers as it counts, if they end inside it. */
  lemma CommandsExist(blob: seq<Byte>, c: Front) returns (hs: seq<Command>)
    requires HasFront(blob, c) && 64 + 304 * c.count <= |blob|
    ensures LaidOut(blob, c, hs)
  {
    hide HasFront, HasCommands;
    hs := CommandsOf(blob, c.count);
  }

  // ---------------------------------------------------------------- parsing gives the fields back

  lemma FrontIs(blob: seq<Byte>, c: Front)
    requires HasFront(blob, c)
    ensures ParseContainer(blob) == Container(c.magic[..4], c.abi, c.count)
  {
    hide Little;
    var m, a, b, k := c.magic, Little(c.linker, 4), Little(c.version, 4), Little(c.kind, 4);
    var i, p, q, s := Little(c.abi, 4), Little(c.cpu, 4), Little(c.subCpu, 4), Little(c.start, 8);
    var z, n, x := Little(c.hdrSz, 8), Little(c.count, 8), Little(c.checksum, 4);
    assert PackFront(c) == (m + a + b + k) + i + (p + q + s + z + n + x) == (m + a + b + k + i + p + q + s + z) + n + x;
    assert blob[..4] == PackFront(c)[..4] == m[..4];
    hide PackFront;
    Part(blob, 0, m + a + b + k, i, p + q + s + z + n + x);
    Part(blob, 0, m + a + b + k + i + p + q + s + z, n, x);
    Reads4(blob, 17, c.abi);
    Reads8(blob, 45, c.count);
  }

  /** The fields of a header that the loader reads. */
  function Read(h: Command): Header {
    Header(h.name, h.cpu, h.kind, h.offset, h.offsetSize, h.vmAddress, h.vmSize)
  }

  lemma CommandIs(blob: seq<Byte>, at: nat, h: Command)
    requires h.Ok() && at + 304 <= |blob| && blob[at..at + 302] == PackCommand(h)
    ensures ParseHeader(blob, at) == Read(h)
  {
    hide Little;
    var name, c, s, f, k := h.name, Little(h.cpu, 4), Little(h.subCpu, 4), Little(h.flags, 4), Little(h.kind, 2);
    var o, z, a, v := Little(h.offset, 8), Little(h.offsetSize, 8), Little(h.vmAddress, 8), Little(h.vmSize, 8);
    assert PackCommand(h) == [] + name + (c + s + f + k + o + z + a + v) == name + c + (s + f + k + o + z + a + v)
                          == (name + c + s + f) + k + (o + z + a + v) == (name + c + s + f + k) + o + (z + a + v)
                          == (name + c + s + f + k + o) + z + (a + v) == (name + c + s + f + k + o + z) + a + v
                          == (name + c + s + f + k + o + z + a) + v + [];
    hide PackCommand;
    Part(blob, at, [], name, c + s + f + k + o + z + a + v);
    Part(blob, at, name, c, s + f + k + o + z + a + v);
    Part(blob, at, name + c + s + f, k, o + z + a + v);
    Part(blob, at, name + c + s + f + k, o, z + a + v);
    Part(blob, at, name + c + s + f + k + o, z, a + v);
    Part(blob, at, name + c + s + f + k + o + z, a, v);
    Part(blob, at, name + c + s + f + k + o + z + a, v, []);
    Reads4(blob, at + 256, h.cpu);
    Reads2(blob, at + 268, h.kind);
    Reads8(blob, at + 270, h.offset);
    Reads8(blob, at + 278, h.offsetSize);
    Reads8(blob, at + 286, h.vmAddress);
    Reads8(blob, at + 294, h.vmSize);
  }

  // ---------------------------------------------------------------- what the loader makes of them

  /** The characters of a text. */
  function Ascii(text: string): seq<Byte>
    requires forall i :: 0 <= i < |text| ==> text[i] < 128 as char
  {
    seq(|text|, i requires 0 <= i < |text| => text[i] as int)
  }

  /** The container is one the loader accepts: the magic "Open" or "nepO", the ABI, and one to 64 headers. */
  predicate Accepted(c: Front) {
    && c.Ok() && (c.magic[..4] == Ascii("Open") || c.magic[..4] == Ascii("nepO"))
    && c.abi == 0x5046 && 1 <= c.count <= 64
  }

  /** Fat: sections may be for any machine. */
  predicate Fat(c: Front) {
    c.Ok() && c.magic[..4] == Ascii("nepO")
  }

  lemma AcceptedExact(blob: seq<Byte>, c: Front)
    requires HasFront(blob, c)
    ensures ContainerOk(blob) <==> Accepted(c) && 64 + 304 * c.count <= |blob|
    ensures ParseContainer(blob).magic == MAGIC_FAT <==> Fat(c)
  {
    FrontIs(blob, c);
    hide HasFront, PackFront, ParseContainer;
    Magics();
    Rows(|blob| - 64, c.count);
  }

  lemma Magics()
    ensures Ascii("Open") == MAGIC && Ascii("nepO") == MAGIC_FAT
  {
  }

  lemma Rows(room: int, n: nat)
    ensures n <= room / 304 <==> 304 * n <= room
  {
  }

  /** The name a symbol's section has: the text of its kind, and the symbol's name with dollar signs for spaces. */
  function SectionText(kind: int, name: seq<Byte>): seq<Byte>
    requires kind in [0xC, 0xD, 0xE]
  {
    Ascii(if kind == 0xC then ".code64" else if kind == 0xD then ".data64" else ".zero64")
    + seq(|name|, i requires 0 <= i < |name| => if name[i] == ' ' as int then '$' as int else name[i])
  }

  /** A header of this kind whose name field holds this text, terminated. */
  predicate Named(h: Command, kind: int, text: seq<Byte>) {
    && h.kind == kind && |text| < |h.name| && h.name[..|text|] == text && h.name[|text|] == 0
  }

  /** What a section must satisfy: its machine, a virtual range inside the image window, and content, if any, behind the
      headers and inside the blob. */
  predicate Acceptable(h: Command, size: nat, count: nat, fat: bool) {
    && (fat || h.cpu == 1)
    && 1 <= h.vmSize && 0x4000_0000 <= h.vmAddress && h.vmAddress + h.vmSize <= 0x4400_0000
    && h.offsetSize <= h.vmSize
    && (h.offsetSize > 0 ==> 64 + 304 * count <= h.offset && h.offset + h.offsetSize <= size)
  }

  /** The name made for a symbol is that text; none is made for another kind or for a name too long for the field. */
  lemma NameExact(kind: int, name: seq<Byte>)
    requires 0 !in name
    ensures MakeName(kind, name) == [] <==> kind !in [0xC, 0xD, 0xE] || |name| >= 249
    ensures MakeName(kind, name) != [] ==> CString(MakeName(kind, name)) == SectionText(kind, name)
  {
    hide CString, Mangle;
    if MakeName(kind, name) != [] {
      MakeNameSpec(kind, name);
      Prefixes();
      assert Mangle(name) == seq(|name|, i requires 0 <= i < |name| => if name[i] == 0x20 then 0x24 else name[i]);
    }
  }

  lemma Prefixes()
    ensures Prefix(0xC) == Ascii(".code64") && Prefix(0xD) == Ascii(".data64") && Prefix(0xE) == Ascii(".zero64")
  {
  }

  lemma NamedIs(h: Command, kind: int, sect: seq<Byte>, text: seq<Byte>)
    requires h.Ok() && CString(sect) == text && |text| < 256 && 0 !in text
    ensures Matches(Read(h), sect, kind) <==> Named(h, kind, text)
  {
    if Named(h, kind, text) {
      forall k | 0 <= k < |text|
        ensures h.name[k] != 0
      {
        assert h.name[k] == h.name[..|text|][k] == text[k] && text[k] in text;
      }
      CStringLength(h.name, |text|);
      hide CString;
    } else if CString(h.name) == text {
      assert h.name[..|text|] == text;
    }
  }

  /** Header i is the first one named so. */
  predicate FirstNamed(hs: seq<Command>, i: nat, kind: int, text: seq<Byte>) {
    i < |hs| && Named(hs[i], kind, text) && forall j :: 0 <= j < i ==> !Named(hs[j], kind, text)
  }

  lemma HeaderIs(blob: seq<Byte>, c: Front, hs: seq<Command>, i: nat)
    requires LaidOut(blob, c, hs) && i < |hs|
    ensures hs[i].Ok() && HeaderAt(blob, i) == Read(hs[i])
  {
    hide HasCommand, HeaderAt, HasFront, Read;
    assert HasCommand(blob, i, hs[i]);
    CommandAt(blob, i, hs[i]);
  }

  lemma CommandAt(blob: seq<Byte>, i: nat, h: Command)
    requires HasCommand(blob, i, h) && 64 + (i + 1) * 304 <= |blob|
    ensures h.Ok() && HeaderAt(blob, i) == Read(h)
  {
    hide PackCommand, ParseHeader, Read;
    CommandIs(blob, 64 + i * 304, h);
  }

  lemma SectionOkIs(h: Command, size: nat, count: nat, fat: bool)
    ensures SectionOk(Read(h), size, count, fat) <==> Acceptable(h, size, count, fat)
  {
  }

  /** The blob offers under a name exactly the first header named so, when the container is accepted and the header is
      acceptable. */
  lemma OfferedExact(blob: seq<Byte>, c: Front, hs: seq<Command>, sect: seq<Byte>, kind: int, text: seq<Byte>, i: nat,
                     g: Header)
    requires LaidOut(blob, c, hs) && CString(sect) == text && |text| < 256 && 0 !in text
    requires FirstNamed(hs, i, kind, text)
    ensures Offers(blob, sect, kind, g) <==>
      Accepted(c) && g == Read(hs[i]) && Acceptable(hs[i], |blob|, |hs|, Fat(c))
  {
    AcceptedExact(blob, c);
    LaidParts(blob, c, hs);
    if ContainerOk(blob) {
      FirstMatches(blob, c, hs, sect, kind, text, i);
      hide *;
      FirstDecides(blob, sect, kind, i, g);
      SectionOkIs(hs[i], |blob|, |hs|, Fat(c));
    } else {
      NoContainer(blob, sect, kind, g);
      hide *;
    }
  }

  lemma NoContainer(blob: seq<Byte>, sect: seq<Byte>, kind: int, g: Header)
    requires !ContainerOk(blob)
    ensures !Offers(blob, sect, kind, g)
  {
    hide ContainerOk;
  }

  lemma LaidParts(blob: seq<Byte>, c: Front, hs: seq<Command>)
    requires LaidOut(blob, c, hs)
    ensures |hs| == c.count == ParseContainer(blob).count && 64 + 304 * |hs| <= |blob|
  {
    FrontIs(blob, c);
    hide PackFront, PackCommand, ParseContainer;
  }

  lemma FirstMatches(blob: seq<Byte>, c: Front, hs: seq<Command>, sect: seq<Byte>, kind: int, text: seq<Byte>, i: nat)
    requires LaidOut(blob, c, hs) && CString(sect) == text && |text| < 256 && 0 !in text
    requires FirstNamed(hs, i, kind, text)
    ensures 64 + (i + 1) * 304 <= |blob| && HeaderAt(blob, i) == Read(hs[i]) && IsFirst(blob, i, sect, kind)
  {
    LaidParts(blob, c, hs);
    hide LaidOut, CString, Named, Matches, HeaderAt, Read;
    forall j | 0 <= j <= i
      ensures HeaderAt(blob, j) == Read(hs[j]) && (Matches(HeaderAt(blob, j), sect, kind) <==> Named(hs[j], kind, text))
    {
      HeaderIs(blob, c, hs, j);
      NamedIs(hs[j], kind, sect, text);
    }
  }

  /** Under a name that no header has it offers nothing. */
  lemma NothingOffered(blob: seq<Byte>, c: Front, hs: seq<Command>, sect: seq<Byte>, kind: int, text: seq<Byte>,
                       g: Header)
    requires LaidOut(blob, c, hs) && CString(sect) == text && |text| < 256 && 0 !in text
    requires forall j :: 0 <= j < |hs| ==> !Named(hs[j], kind, text)
    ensures !Offers(blob, sect, kind, g)
  {
    LaidParts(blob, c, hs);
    hide LaidOut, CString, Named, Matches, HeaderAt, Read, SectionOk;
    forall j | 0 <= j < |hs|
      ensures !Matches(HeaderAt(blob, j), sect, kind)
    {
      HeaderIs(blob, c, hs, j);
      NamedIs(hs[j], kind, sect, text);
    }
  }

  /** The pages of the section show the blob's bytes from its offset on, and zeros behind them as far as they cover
      it. */
  ghost predicate ShowsContent(m: Memory, root: nat, blob: seq<Byte>, h: Command)
    requires h.offset + h.offsetSize <= |blob|
  {
    && (forall k :: 0 <= k < h.offsetSize ==> ReadVa(m, root, Add64(h.vmAddress, k)) == blob[h.offset + k])
    && (forall k :: h.offsetSize <= k < CoveredBytes(h.vmAddress, h.vmSize) ==>
          ReadVa(m, root, Add64(h.vmAddress, k)) == 0)
  }

  /** FindSymbol on a blob laid out this way.  The first header with the symbol's section name decides: it loads exactly
      when the container is accepted, the header is acceptable and has content, and the frames pay for its pages, and
      then byte k of the section is the blob's byte `offset + k`. */
  lemma FindLaid(s: Hal, cr3: Word, blob: seq<Byte>, c: Front, hs: seq<Command>, kind: int, name: seq<Byte>, i: nat)
    requires cr3 / 0x1000 != 0 && Sound(s, cr3 / 0x1000) && PoolKept(s, cr3 / 0x1000) && OffWindow(s)
    requires |blob| < 0x1_0000_0000_0000_0000 && LaidOut(blob, c, hs) && i < |hs|
    requires kind in [0xC, 0xD, 0xE] && 0 !in name && |name| < 249 && FirstNamed(hs, i, kind, SectionText(kind, name))
    requires ContentFits(Read(hs[i]))
    ensures var h, root := hs[i], cr3 / 0x1000;
      var (s', r) := FindSymbol(s, cr3, blob, name, kind);
      var good := Accepted(c) && Acceptable(h, |blob|, |hs|, Fat(c)) && h.offsetSize > 0;
      && r == (if !good then Failed(InvalidData)
               else if s.free < Cost(s.mem, root, h.vmAddress, 0, PageCount(h.vmSize)) then Failed(OutOfMemory)
               else Loaded(h.vmAddress))
      && (!good ==> s' == s)
      && (r.Loaded? ==> h.offset + h.offsetSize <= |blob| && ShowsContent(s'.mem, root, blob, h))
  {
    hide *;
    var sect, text, h := MakeName(kind, name), SectionText(kind, name), hs[i];
    NameExact(kind, name);
    TextIs(kind, name);
    ReadParts(h);
    forall g
      ensures Offers(blob, sect, kind, g) <==> Accepted(c) && g == Read(h) && Acceptable(h, |blob|, |hs|, Fat(c))
    {
      OfferedExact(blob, c, hs, sect, kind, text, i, g);
    }
    OfferedLoads(s, cr3, blob, c, h, |hs|, kind, name);
  }

  /** The same from what the blob offers. */
  lemma OfferedLoads(s: Hal, cr3: Word, blob: seq<Byte>, c: Front, h: Command, count: nat, kind: int, name: seq<Byte>)
    requires cr3 / 0x1000 != 0 && Sound(s, cr3 / 0x1000) && PoolKept(s, cr3 / 0x1000) && OffWindow(s)
    requires |blob| < 0x1_0000_0000_0000_0000 && MakeName(kind, name) != [] && ContentFits(Read(h))
    requires forall g :: Offers(blob, MakeName(kind, name), kind, g) <==>
               Accepted(c) && g == Read(h) && Acceptable(h, |blob|, count, Fat(c))
    ensures var root := cr3 / 0x1000;
      var (s', r) := FindSymbol(s, cr3, blob, name, kind);
      var good := Accepted(c) && Acceptable(h, |blob|, count, Fat(c)) && h.offsetSize > 0;
      && r == (if !good then Failed(InvalidData)
               else if s.free < Cost(s.mem, root, h.vmAddress, 0, PageCount(h.vmSize)) then Failed(OutOfMemory)
               else Loaded(h.vmAddress))
      && (!good ==> s' == s)
      && (r.Loaded? ==> h.offset + h.offsetSize <= |blob| && ShowsContent(s'.mem, root, blob, h))
  {
    hide *;
    var sect := MakeName(kind, name);
    FindSymbolSpec(s, cr3, blob, name, kind);
    ReadParts(h);
    if Offers(blob, sect, kind, Read(h)) && h.offsetSize > 0 {
      FindSectionExact(blob, sect, kind, Read(h));
      ContentIs(blob, h, count, Fat(c));
      LoadSectionSpec(s, cr3, Read(h), ContentOf(blob, Read(h)));
      if FindSymbol(s, cr3, blob, name, kind).1.Loaded? {
        CoveredFits(Read(h));
        ContentShown(FindSymbol(s, cr3, blob, name, kind).0.mem, cr3 / 0x1000, blob, h);
      }
    }
  }

  /** A symbol for which no header is named is refused and nothing changes. */
  lemma FindNone(s: Hal, cr3: Word, blob: seq<Byte>, c: Front, hs: seq<Command>, kind: int, name: seq<Byte>)
    requires cr3 / 0x1000 != 0 && Sound(s, cr3 / 0x1000) && PoolKept(s, cr3 / 0x1000) && OffWindow(s)
    requires |blob| < 0x1_0000_0000_0000_0000 && LaidOut(blob, c, hs) && 0 !in name
    requires kind in [0xC, 0xD, 0xE] && |name| < 249 ==>
               forall j :: 0 <= j < |hs| ==> !Named(hs[j], kind, SectionText(kind, name))
    ensures FindSymbol(s, cr3, blob, name, kind) == (s, Failed(InvalidData))
  {
    hide *;
    var sect := MakeName(kind, name);
    NameExact(kind, name);
    FindSymbolSpec(s, cr3, blob, name, kind);
    if sect != [] {
      TextIs(kind, name);
      forall g
        ensures !Offers(blob, sect, kind, g)
      {
        NothingOffered(blob, c, hs, sect, kind, SectionText(kind, name), g);
      }
    }
  }

  lemma TextIs(kind: int, name: seq<Byte>)
    requires kind in [0xC, 0xD, 0xE] && 0 !in name
    ensures |SectionText(kind, name)| == 7 + |name| && 0 !in SectionText(kind, name)
  {
    forall k | 0 <= k < |name|
      ensures name[k] != 0
    {
      assert name[k] in name;
    }
  }

  lemma ReadParts(h: Command)
    ensures Read(h).offset == h.offset && Read(h).offsetSize == h.offsetSize
    ensures Read(h).vmAddress == h.vmAddress && Read(h).vmSize == h.vmSize
  {
  }

  lemma ContentIs(blob: seq<Byte>, h: Command, count: nat, fat: bool)
    requires Acceptable(h, |blob|, count, fat) && h.offsetSize > 0
    ensures h.offset + h.offsetSize <= |blob|
    ensures ContentOf(blob, Read(h)) == Source(blob[h.offset..h.offset + h.offsetSize])
    ensures h.offsetSize <= h.vmSize
  {
  }

  lemma ContentShown(m: Memory, root: nat, blob: seq<Byte>, h: Command)
    requires h.offset + h.offsetSize <= |blob| && h.offsetSize <= CoveredBytes(h.vmAddress, h.vmSize)
    requires ReadsAs(m, root, h.vmAddress, CoveredBytes(h.vmAddress, h.vmSize),
                     blob[h.offset..h.offset + h.offsetSize])
    ensures ShowsContent(m, root, blob, h)
  {
    hide ReadVa, Add64, CoveredBytes;
  }
}
