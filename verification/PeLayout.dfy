/** The headers of a PE32+ file as the loader's structures declare them, packed field by field, and what an image laid
    out that way loads as. */
module PeLayout {
  import opened Words
  import opened Bytes
  import opened Packing
  import opened PhysicalMemory
  import opened FrameAllocator
  import opened PageTables
  import opened PagingManager
  import opened SectionLoader
  import opened Demand
  import opened Reachability
  import opened PefLoader
  import opened Pe32Loader
  import opened Pe32Proofs

  // ---------------------------------------------------------------- the structures

  /** DosHeader: two magic bytes, two of padding, twenty-nine words up to eRes2, and eLfanew. */
  datatype DosHeader = DosHeader(magic0: U8, magic1: U8, padding: seq<Byte>, words: seq<U32>, lfanew: Word)
  {
    predicate Ok() { |padding| == 2 && |words| == 29 }
  }

  /** LDR_EXEC_HEADER. */
  datatype ExecHeader = ExecHeader(
    signature: U32,
    machine: U16,
    numberOfSections: U16,
    timeDateStamp: U32,
    pointerToSymbolTable: U32,
    numberOfSymbols: U32,
    sizeOfOptionalHeader: U16,
    characteristics: U16)

  /** LDR_OPTIONAL_HEADER. */
  datatype OptionalHeader = OptionalHeader(
    magic: U16,
    majorLinkerVersion: U8,
    minorLinkerVersion: U8,
    sizeOfCode: U32,
    sizeOfInitializedData: U32,
    sizeOfUninitializedData: U32,
    addressOfEntryPoint: U32,
    baseOfCode: U32,
    imageBase: Word,
    sectionAlignment: U32,
    fileAlignment: U32,
    majorOperatingSystemVersion: U16,
    minorOperatingSystemVersion: U16,
    majorImageVersion: U16,
    minorImageVersion: U16,
    majorSubsystemVersion: U16,
    minorSubsystemVersion: U16,
    win32VersionValue: U32,
    sizeOfImage: U32,
    sizeOfHeaders: U32,
    checkSum: U32,
    subsystem: U16,
    dllCharacteristics: U16,
    sizeOfStackReserve: U32,
    sizeOfStackCommit: U32,
    sizeOfHeapReserve: U32,
    sizeOfHeapCommit: U32,
    loaderFlags: U32,
    numberOfRvaAndSizes: U32)

  /** LDR_SECTION_HEADER. */
  datatype SectionHeader = SectionHeader(
    name: seq<Byte>,
    virtualSize: U32,
    virtualAddress: U32,
    sizeOfRawData: U32,
    pointerToRawData: U32,
    pointerToRelocations: U32,
    pointerToLineNumbers: U32,
    numberOfRelocations: U16,
    numberOfLinenumbers: U16,
    characteristics: U32)
  {
    predicate Ok() { |name| == 8 }
  }

  function PackWords(words: seq<U32>): (r: seq<Byte>)
    ensures |r| == 4 * |words|
  {
    if words == [] then [] else Little(words[0], 4) + PackWords(words[1..])
  }

  function PackDos(d: DosHeader): (r: seq<Byte>)
    requires d.Ok()
    ensures |r| == 128
  {
    [d.magic0, d.magic1] + d.padding + PackWords(d.words) + Little(d.lfanew, 8)
  }

  function PackExec(e: ExecHeader): (r: seq<Byte>)
    ensures |r| == 24
  {
    Little(e.signature, 4) + Little(e.machine, 2) + Little(e.numberOfSections, 2) + ExecSymbols(e)
    + Little(e.sizeOfOptionalHeader, 2) + Little(e.characteristics, 2)
  }

  function ExecSymbols(e: ExecHeader): (r: seq<Byte>)
    ensures |r| == 12
  {
    Little(e.timeDateStamp, 4) + Little(e.pointerToSymbolTable, 4) + Little(e.numberOfSymbols, 4)
  }

  function PackOptional(o: OptionalHeader): (r: seq<Byte>)
    ensures |r| == 96
  {
    OptionalCode(o) + Little(o.imageBase, 8) + OptionalVersions(o) + Little(o.sizeOfImage, 4)
    + Little(o.sizeOfHeaders, 4) + Little(o.checkSum, 4) + Little(o.subsystem, 2) + OptionalLimits(o)
  }

  /** The fields up to baseOfCode. */
  function OptionalCode(o: OptionalHeader): (r: seq<Byte>)
    ensures |r| == 24
  {
    Little(o.magic, 2) + Little(o.majorLinkerVersion, 1) + Little(o.minorLinkerVersion, 1) + Little(o.sizeOfCode, 4)
    + Little(o.sizeOfInitializedData, 4) + Little(o.sizeOfUninitializedData, 4) + Little(o.addressOfEntryPoint, 4)
    + Little(o.baseOfCode, 4)
  }

  /** The fields between imageBase and sizeOfImage. */
  function OptionalVersions(o: OptionalHeader): (r: seq<Byte>)
    ensures |r| == 24
  {
    Little(o.sectionAlignment, 4) + Little(o.fileAlignment, 4)
    + Little(o.majorOperatingSystemVersion, 2) + Little(o.minorOperatingSystemVersion, 2)
    + Little(o.majorImageVersion, 2) + Little(o.minorImageVersion, 2)
    + Little(o.majorSubsystemVersion, 2) + Little(o.minorSubsystemVersion, 2)
    + Little(o.win32VersionValue, 4)
  }

  /** The fields from dllCharacteristics on. */
  function OptionalLimits(o: OptionalHeader): (r: seq<Byte>)
    ensures |r| == 26
  {
    Little(o.dllCharacteristics, 2) + Little(o.sizeOfStackReserve, 4) + Little(o.sizeOfStackCommit, 4)
    + Little(o.sizeOfHeapReserve, 4) + Little(o.sizeOfHeapCommit, 4) + Little(o.loaderFlags, 4)
    + Little(o.numberOfRvaAndSizes, 4)
  }

  function PackSection(h: SectionHeader): (r: seq<Byte>)
    requires h.Ok()
    ensures |r| == 40
  {
    h.name + Little(h.virtualSize, 4) + Little(h.virtualAddress, 4) + Little(h.sizeOfRawData, 4)
    + Little(h.pointerToRawData, 4) + SectionTables(h)
  }

  /** The fields behind pointerToRawData. */
  function SectionTables(h: SectionHeader): (r: seq<Byte>)
    ensures |r| == 16
  {
    Little(h.pointerToRelocations, 4) + Little(h.pointerToLineNumbers, 4) + Little(h.numberOfRelocations, 2)
    + Little(h.numberOfLinenumbers, 2) + Little(h.characteristics, 4)
  }

  predicate AllOk(secs: seq<SectionHeader>) {
    forall i :: 0 <= i < |secs| ==> secs[i].Ok()
  }

  function PackSections(secs: seq<SectionHeader>): (r: seq<Byte>)
    requires AllOk(secs)
    ensures |r| == 40 * |secs|
  {
    if secs == [] then [] else PackSection(secs[0]) + PackSections(secs[1..])
  }

  /** The blob starts with these headers, back to back. */
  predicate HasHeaders(blob: seq<Byte>, d: DosHeader, e: ExecHeader, o: OptionalHeader) {
    d.Ok() && |blob| >= 248 && blob[..248] == PackDos(d) + PackExec(e) + PackOptional(o)
  }

  /** And its section table, right behind an optional header of the size given, is this one. */
  predicate HasSections(blob: seq<Byte>, e: ExecHeader, secs: seq<SectionHeader>) {
    && AllOk(secs) && |secs| == e.numberOfSections
    && 152 + e.sizeOfOptionalHeader + 40 * |secs| <= |blob|
    && blob[152 + e.sizeOfOptionalHeader..152 + e.sizeOfOptionalHeader + 40 * |secs|] == PackSections(secs)
  }

  // ---------------------------------------------------------------- any blob long enough has them

  lemma ExecOf(b: seq<Byte>) returns (e: ExecHeader)
    requires |b| == 24
    ensures PackExec(e) == b
  {
    hide Little;
    e := ExecHeader(Field4(b, 0), Field2(b, 4), Field2(b, 6), Field4(b, 8), Field4(b, 12), Field4(b, 16), Field2(b, 20),
                    Field2(b, 22));
    assert ExecSymbols(e) == b[8..20];
    hide ExecSymbols;
  }

  function OptionalOf(b: seq<Byte>): OptionalHeader
    requires |b| == 96
  {
    OptionalHeader(
      Field2(b, 0), Field1(b, 2), Field1(b, 3), Field4(b, 4), Field4(b, 8), Field4(b, 12), Field4(b, 16), Field4(b, 20),
      Field8(b, 24), Field4(b, 32), Field4(b, 36), Field2(b, 40), Field2(b, 42), Field2(b, 44), Field2(b, 46),
      Field2(b, 48), Field2(b, 50), Field4(b, 52), Field4(b, 56), Field4(b, 60), Field4(b, 64), Field2(b, 68),
      Field2(b, 70), Field4(b, 72), Field4(b, 76), Field4(b, 80), Field4(b, 84), Field4(b, 88), Field4(b, 92))
  }

  lemma CodeOf(b: seq<Byte>)
    requires |b| == 96
    ensures OptionalCode(OptionalOf(b)) == b[..24]
  {
    hide Little;
  }

  lemma VersionsOf(b: seq<Byte>)
    requires |b| == 96
    ensures OptionalVersions(OptionalOf(b)) == b[32..56]
  {
    hide Little;
  }

  lemma LimitsOf(b: seq<Byte>)
    requires |b| == 96
    ensures OptionalLimits(OptionalOf(b)) == b[70..]
  {
    hide Little;
  }

  lemma BetweenOf(b: seq<Byte>)
    requires |b| == 96
    ensures var o := OptionalOf(b);
      && Little(o.imageBase, 8) == b[24..32] && Little(o.sizeOfImage, 4) == b[56..60]
      && Little(o.sizeOfHeaders, 4) == b[60..64] && Little(o.checkSum, 4) == b[64..68]
      && Little(o.subsystem, 2) == b[68..70]
  {
    hide Little;
  }

  lemma OptionalIsAll(b: seq<Byte>)
    requires |b| == 96
    ensures PackOptional(OptionalOf(b)) == b
  {
    hide *;
    CodeOf(b);
    VersionsOf(b);
    LimitsOf(b);
    BetweenOf(b);
    OptionalJoins(OptionalOf(b), b);
  }

  lemma OptionalJoins(o: OptionalHeader, b: seq<Byte>)
    requires |b| == 96 && OptionalCode(o) == b[..24] && Little(o.imageBase, 8) == b[24..32]
    requires OptionalVersions(o) == b[32..56] && Little(o.sizeOfImage, 4) == b[56..60]
    requires Little(o.sizeOfHeaders, 4) == b[60..64] && Little(o.checkSum, 4) == b[64..68]
    requires Little(o.subsystem, 2) == b[68..70] && OptionalLimits(o) == b[70..]
    ensures PackOptional(o) == b
  {
    hide Little, OptionalCode, OptionalVersions, OptionalLimits;
    assert b[..24] + b[24..32] + b[32..56] + b[56..60] + b[60..64] + b[64..68] + b[68..70] + b[70..] == b;
  }

  lemma SectionOf(b: seq<Byte>) returns (h: SectionHeader)
    requires |b| == 40
    ensures h.Ok() && PackSection(h) == b
  {
    hide Little;
    h := SectionHeader(b[..8], Field4(b, 8), Field4(b, 12), Field4(b, 16), Field4(b, 20), Field4(b, 24), Field4(b, 28),
                       Field2(b, 32), Field2(b, 34), Field4(b, 36));
    assert SectionTables(h) == b[24..];
    hide SectionTables;
  }

  lemma {:induction false} WordsOf(b: seq<Byte>, n: nat) returns (words: seq<U32>)
    requires |b| == 4 * n
    ensures |words| == n && PackWords(words) == b
    decreases n
  {
    hide Little;
    if n == 0 {
      words := [];
    } else {
      var rest := WordsOf(b[4..], n - 1);
      words := [Field4(b, 0)] + rest;
      assert words[1..] == rest;
    }
  }

  lemma DosOf(b: seq<Byte>) returns (d: DosHeader)
    requires |b| == 128
    ensures d.Ok() && PackDos(d) == b
  {
    hide Little, PackWords;
    var words := WordsOf(b[4..120], 29);
    d := DosHeader(b[0], b[1], b[2..4], words, Field8(b, 120));
  }

  lemma {:induction false} SectionsOf(b: seq<Byte>, n: nat) returns (secs: seq<SectionHeader>)
    requires |b| == 40 * n
    ensures AllOk(secs) && |secs| == n && PackSections(secs) == b
    decreases n
  {
    hide PackSection;
    if n == 0 {
      secs := [];
    } else {
      var first := SectionOf(b[..40]);
      var rest := SectionsOf(b[40..], n - 1);
      secs := [first] + rest;
      assert secs[1..] == rest;
    }
  }

  /** Every blob of 248 bytes or more has headers. */
  lemma HeadersExist(blob: seq<Byte>) returns (d: DosHeader, e: ExecHeader, o: OptionalHeader)
    requires |blob| >= 248
    ensures HasHeaders(blob, d, e, o)
  {
    hide *;
    d := DosOf(blob[..128]);
    e := ExecOf(blob[128..152]);
    o := OptionalOf(blob[152..248]);
    OptionalIsAll(blob[152..248]);
    HeadersJoin(blob, d, e, o);
  }

  lemma HeadersJoin(blob: seq<Byte>, d: DosHeader, e: ExecHeader, o: OptionalHeader)
    requires |blob| >= 248 && d.Ok() && PackDos(d) == blob[..128]
    requires PackExec(e) == blob[128..152] && PackOptional(o) == blob[152..248]
    ensures HasHeaders(blob, d, e, o)
  {
    hide PackDos, PackExec, PackOptional;
    assert blob[..248] == blob[..128] + blob[128..152] + blob[152..248];
  }

  /** And section headers, if the table ends inside it. */
  lemma SectionsExist(blob: seq<Byte>, e: ExecHeader) returns (secs: seq<SectionHeader>)
    requires 152 + e.sizeOfOptionalHeader + 40 * e.numberOfSections <= |blob|
    ensures HasSections(blob, e, secs)
  {
    hide *;
    var at, n := 152 + e.sizeOfOptionalHeader, e.numberOfSections;
    var b := blob[at..at + 40 * n];
    assert |b| == 40 * n;
    secs := SectionsOf(b, n);
    SectionsStand(blob, e, secs);
  }

  lemma SectionsStand(blob: seq<Byte>, e: ExecHeader, secs: seq<SectionHeader>)
    requires AllOk(secs) && |secs| == e.numberOfSections
    requires 152 + e.sizeOfOptionalHeader + 40 * |secs| <= |blob|
    requires PackSections(secs) == blob[152 + e.sizeOfOptionalHeader..152 + e.sizeOfOptionalHeader + 40 * |secs|]
    ensures HasSections(blob, e, secs)
  {
    hide PackSections, AllOk;
  }

  // ---------------------------------------------------------------- parsing gives the fields back

  lemma HeaderParts(blob: seq<Byte>, d: DosHeader, e: ExecHeader, o: OptionalHeader)
    requires HasHeaders(blob, d, e, o)
    ensures blob[0] == d.magic0 && blob[1] == d.magic1
    ensures blob[128..152] == PackExec(e) && blob[152..248] == PackOptional(o)
  {
    hide PackDos, PackExec, PackOptional;
    Part(blob, 0, PackDos(d), PackExec(e), PackOptional(o));
    assert PackDos(d) + PackExec(e) + PackOptional(o) == (PackDos(d) + PackExec(e)) + PackOptional(o) + [];
    Part(blob, 0, PackDos(d) + PackExec(e), PackOptional(o), []);
    DosMagic(d);
    assert blob[..248][0] == PackDos(d)[0] && blob[..248][1] == PackDos(d)[1];
  }

  lemma DosMagic(d: DosHeader)
    requires d.Ok()
    ensures PackDos(d)[0] == d.magic0 && PackDos(d)[1] == d.magic1
  {
  }

  /** The executable header. */
  lemma ExecIs(blob: seq<Byte>, e: ExecHeader)
    requires |blob| >= 248 && blob[128..152] == PackExec(e)
    ensures Machine(blob) == e.machine && SectionCount(blob) == e.numberOfSections
    ensures OptionalSize(blob) == e.sizeOfOptionalHeader
  {
    hide Little, ExecSymbols;
    var a, b, c := Little(e.signature, 4), Little(e.machine, 2), Little(e.numberOfSections, 2);
    var m, z, w := ExecSymbols(e), Little(e.sizeOfOptionalHeader, 2), Little(e.characteristics, 2);
    assert PackExec(e) == a + b + (c + m + z + w) == (a + b) + c + (m + z + w) == (a + b + c + m) + z + w;
    hide PackExec;
    Part(blob, 128, a, b, c + m + z + w);
    Part(blob, 128, a + b, c, m + z + w);
    Part(blob, 128, a + b + c + m, z, w);
    Reads2(blob, 132, e.machine);
    Reads2(blob, 134, e.numberOfSections);
    Reads2(blob, 148, e.sizeOfOptionalHeader);
  }

  /** The optional header. */
  lemma OptionalIs(blob: seq<Byte>, o: OptionalHeader)
    requires |blob| >= 248 && blob[152..248] == PackOptional(o)
    ensures ImageBase(blob) == o.imageBase && ImageSize(blob) == o.sizeOfImage && Subsystem(blob) == o.subsystem
  {
    hide Little, OptionalCode, OptionalVersions, OptionalLimits;
    var a, b, c, s := OptionalCode(o), Little(o.imageBase, 8), OptionalVersions(o), Little(o.sizeOfImage, 4);
    var m, z, u, l := Little(o.sizeOfHeaders, 4), Little(o.checkSum, 4), Little(o.subsystem, 2), OptionalLimits(o);
    assert PackOptional(o) == a + b + (c + s + m + z + u + l) == (a + b + c) + s + (m + z + u + l)
                           == (a + b + c + s + m + z) + u + l;
    hide PackOptional;
    Part(blob, 152, a, b, c + s + m + z + u + l);
    Part(blob, 152, a + b + c, s, m + z + u + l);
    Part(blob, 152, a + b + c + s + m + z, u, l);
    Reads8(blob, 176, o.imageBase);
    Reads4(blob, 208, o.sizeOfImage);
    Reads2(blob, 220, o.subsystem);
  }

  lemma {:induction false} SectionPart(secs: seq<SectionHeader>, i: nat)
    requires AllOk(secs) && i < |secs|
    ensures PackSections(secs)[40 * i..40 * i + 40] == PackSection(secs[i])
    decreases |secs|
  {
    hide PackSection;
    if i > 0 {
      SectionPart(secs[1..], i - 1);
      var rest := PackSections(secs[1..]);
      assert PackSections(secs)[40..40 + |rest|] == rest;
      SliceOfSlice(PackSections(secs), 40, |rest|, 40 * (i - 1), 40);
    }
  }

  /** Section header i. */
  lemma SectionIs(blob: seq<Byte>, e: ExecHeader, secs: seq<SectionHeader>, i: nat)
    requires HasSections(blob, e, secs) && i < |secs| && TableOk(blob)
    requires SectionCount(blob) == e.numberOfSections && OptionalSize(blob) == e.sizeOfOptionalHeader
    ensures SectionAt(blob, i) == Section(secs[i].virtualAddress, secs[i].sizeOfRawData, secs[i].pointerToRawData)
  {
    hide Little, SectionTables, PackSection, PackSections;
    var at := 152 + e.sizeOfOptionalHeader;
    SectionPart(secs, i);
    SliceOfSlice(blob, at, 40 * |secs|, 40 * i, 40);
    SectionFields(blob, at + 40 * i, secs[i]);
  }

  lemma SectionFields(blob: seq<Byte>, at: nat, h: SectionHeader)
    requires at + 40 <= |blob| && h.Ok() && blob[at..at + 40] == PackSection(h)
    ensures Le4(blob, at + 12) == h.virtualAddress && Le4(blob, at + 16) == h.sizeOfRawData
    ensures Le4(blob, at + 20) == h.pointerToRawData
  {
    hide Little, SectionTables;
    var a, b, c := h.name, Little(h.virtualSize, 4), Little(h.virtualAddress, 4);
    var s, p, t := Little(h.sizeOfRawData, 4), Little(h.pointerToRawData, 4), SectionTables(h);
    assert PackSection(h) == (a + b) + c + (s + p + t) == (a + b + c) + s + (p + t) == (a + b + c + s) + p + t;
    hide PackSection;
    Part(blob, at, a + b, c, s + p + t);
    Part(blob, at, a + b + c, s, p + t);
    Part(blob, at, a + b + c + s, p, t);
    Reads4(blob, at + 12, h.virtualAddress);
    Reads4(blob, at + 16, h.sizeOfRawData);
    Reads4(blob, at + 20, h.pointerToRawData);
  }

  // ---------------------------------------------------------------- what the loader makes of them

  /** What the fields ask for. */
  function ImageOf(o: OptionalHeader, secs: seq<SectionHeader>): (img: Image)
    ensures img.base == o.imageBase && img.size == o.sizeOfImage < 0x1_0000_0000 && |img.sections| == |secs|
  {
    Image(o.imageBase, o.sizeOfImage,
          seq(|secs|, i requires 0 <= i < |secs| =>
                Section(secs[i].virtualAddress, secs[i].sizeOfRawData, secs[i].pointerToRawData)))
  }

  /** The headers of an image for this kernel. */
  predicate ForKernel(d: DosHeader, e: ExecHeader, o: OptionalHeader) {
    && d.magic0 == 'M' as int && d.magic1 == 'Z' as int
    && e.machine == 0x8664 && o.subsystem == 0x11 && 1 <= o.sizeOfImage <= 0x400_0000
  }

  /** The constructor accepts exactly the blobs with such headers; shorter ones are bad. */
  lemma ConstructExact(blob: seq<Byte>, d: DosHeader, e: ExecHeader, o: OptionalHeader)
    requires HasHeaders(blob, d, e, o)
    ensures Construct(blob) == Loader(blob, !ForKernel(d, e, o), 0)
  {
    HeaderParts(blob, d, e, o);
    ExecIs(blob, e);
    OptionalIs(blob, o);
    hide HasHeaders, PackExec, PackOptional, Machine, Subsystem, ImageSize;
  }

  lemma TooShort(blob: seq<Byte>)
    requires |blob| < 248
    ensures Construct(blob) == Loader(blob, true, 0)
  {
  }

  /** It can load exactly when it has at least one section and its section table, behind an optional header of the size
      given, ends inside the blob. */
  lemma ReadyExact(blob: seq<Byte>, d: DosHeader, e: ExecHeader, o: OptionalHeader)
    requires HasHeaders(blob, d, e, o)
    ensures Ready(Construct(blob)) <==>
      && ForKernel(d, e, o) && e.numberOfSections >= 1
      && 152 + e.sizeOfOptionalHeader + 40 * e.numberOfSections <= |blob|
  {
    ConstructExact(blob, d, e, o);
    HeaderParts(blob, d, e, o);
    ExecIs(blob, e);
    OptionalIs(blob, o);
    hide HasHeaders, PackExec, PackOptional, Machine, Subsystem, ImageSize, SectionCount, OptionalSize, Construct;
    Rows(|blob| - (152 + e.sizeOfOptionalHeader), e.numberOfSections);
  }

  lemma Rows(room: int, n: nat)
    ensures n <= room / 40 <==> 40 * n <= room
  {
  }

  lemma SectionsFit(blob: seq<Byte>, e: ExecHeader, secs: seq<SectionHeader>)
    requires HasSections(blob, e, secs)
    ensures |secs| == e.numberOfSections && 152 + e.sizeOfOptionalHeader + 40 * e.numberOfSections <= |blob|
  {
  }

  /** What LoadImage reads from the headers is what was packed there. */
  lemma ParseIs(blob: seq<Byte>, d: DosHeader, e: ExecHeader, o: OptionalHeader, secs: seq<SectionHeader>)
    requires HasHeaders(blob, d, e, o) && HasSections(blob, e, secs) && |secs| >= 1
    ensures TableOk(blob) && ParseImage(blob) == ImageOf(o, secs)
  {
    hide *;
    HeaderParts(blob, d, e, o);
    HeaderRoom(blob, d, e, o);
    ExecIs(blob, e);
    OptionalIs(blob, o);
    SectionsFit(blob, e, secs);
    TableFits(blob, e);
    forall i | 0 <= i < |secs|
      ensures SectionAt(blob, i) == Section(secs[i].virtualAddress, secs[i].sizeOfRawData, secs[i].pointerToRawData)
    {
      SectionIs(blob, e, secs, i);
    }
    ImageIs(blob, o, secs);
  }

  lemma HeaderRoom(blob: seq<Byte>, d: DosHeader, e: ExecHeader, o: OptionalHeader)
    requires HasHeaders(blob, d, e, o)
    ensures |blob| >= 248
  {
    hide PackDos, PackExec, PackOptional;
  }

  lemma TableFits(blob: seq<Byte>, e: ExecHeader)
    requires |blob| >= 248 && SectionCount(blob) == e.numberOfSections && OptionalSize(blob) == e.sizeOfOptionalHeader
    requires e.numberOfSections >= 1 && 152 + e.sizeOfOptionalHeader + 40 * e.numberOfSections <= |blob|
    ensures TableOk(blob)
  {
    hide SectionCount, OptionalSize;
    Rows(|blob| - (152 + e.sizeOfOptionalHeader), e.numberOfSections);
  }

  lemma ImageIs(blob: seq<Byte>, o: OptionalHeader, secs: seq<SectionHeader>)
    requires TableOk(blob) && SectionCount(blob) == |secs|
    requires ImageBase(blob) == o.imageBase && ImageSize(blob) == o.sizeOfImage
    requires forall i :: 0 <= i < |secs| ==>
               SectionAt(blob, i) == Section(secs[i].virtualAddress, secs[i].sizeOfRawData, secs[i].pointerToRawData)
    ensures ParseImage(blob) == ImageOf(o, secs)
  {
    hide SectionAt, SectionCount, ImageBase, ImageSize, TableOk;
  }

  /** The content of a section lies inside the image and inside the blob. */
  predicate Fits(h: SectionHeader, o: OptionalHeader, size: nat) {
    h.sizeOfRawData == 0 ||
    (h.virtualAddress + h.sizeOfRawData <= o.sizeOfImage && h.pointerToRawData + h.sizeOfRawData <= size)
  }

  predicate AllInside(secs: seq<SectionHeader>, o: OptionalHeader, size: nat) {
    forall i :: 0 <= i < |secs| ==> Fits(secs[i], o, size)
  }

  /** Image byte `at` is content of a section. */
  predicate Covers(h: SectionHeader, at: nat) {
    h.virtualAddress <= at < h.virtualAddress + h.sizeOfRawData
  }

  /** Section i is the last one in the table that has content for this byte of the image. */
  predicate LastCover(secs: seq<SectionHeader>, i: nat, at: nat) {
    i < |secs| && Covers(secs[i], at) && forall j :: i < j < |secs| ==> !Covers(secs[j], at)
  }

  /** The loaded image shows, at each address the processor accepts, the byte at its place in the raw data of the last
      section that has content for it, and zero where no section has any. */
  ghost predicate ShowsSections(m: Memory, root: nat, blob: seq<Byte>, o: OptionalHeader, secs: seq<SectionHeader>)
    requires AllInside(secs, o, |blob|)
  {
    forall at :: 0 <= at < o.sizeOfImage && Canonical(Add64(o.imageBase, at)) ==>
      && (forall i: nat :: LastCover(secs, i, at) ==>
            ReadVa(m, root, Add64(o.imageBase, at))
            == RawByte(blob, o, secs[i], at))
      && ((forall i :: 0 <= i < |secs| ==> !Covers(secs[i], at)) ==> ReadVa(m, root, Add64(o.imageBase, at)) == 0)
  }

  /** The byte of the blob that a section puts at this place of the image. */
  function RawByte(blob: seq<Byte>, o: OptionalHeader, h: SectionHeader, at: nat): Byte
    requires Fits(h, o, |blob|) && Covers(h, at)
  {
    blob[h.pointerToRawData + (at - h.virtualAddress)]
  }

  lemma {:induction false} PaintedLast(blob: seq<Byte>, o: OptionalHeader, secs: seq<SectionHeader>, n: nat, at: nat,
                                       i: nat)
    requires AllInside(secs, o, |blob|) && AllFit(ImageOf(o, secs), |blob|, n) && i < n <= |secs|
    requires Covers(secs[i], at) && forall j :: i < j < n ==> !Covers(secs[j], at)
    ensures Painted(blob, ImageOf(o, secs), n, at) == RawByte(blob, o, secs[i], at)
    decreases n
  {
    if i < n - 1 {
      assert !Covers(secs[n - 1], at);
      PaintedLast(blob, o, secs, n - 1, at, i);
    }
  }

  lemma {:induction false} PaintedNone(blob: seq<Byte>, o: OptionalHeader, secs: seq<SectionHeader>, n: nat, at: nat)
    requires AllFit(ImageOf(o, secs), |blob|, n) && n <= |secs| && forall j :: 0 <= j < n ==> !Covers(secs[j], at)
    ensures Painted(blob, ImageOf(o, secs), n, at) == 0
    decreases n
  {
    if n > 0 {
      assert !Covers(secs[n - 1], at);
      PaintedNone(blob, o, secs, n - 1, at);
    }
  }

  lemma FitIs(o: OptionalHeader, secs: seq<SectionHeader>, size: nat)
    ensures AllFit(ImageOf(o, secs), size, |secs|) <==> AllInside(secs, o, size)
  {
    var img := ImageOf(o, secs);
    assert forall i :: 0 <= i < |secs| ==> (SectionFits(img.sections[i], img.size, size) <==> Fits(secs[i], o, size));
  }

  lemma SectionsShown(m: Memory, root: nat, blob: seq<Byte>, o: OptionalHeader, secs: seq<SectionHeader>)
    requires ImageReads(m, root, blob, ImageOf(o, secs)) && AllInside(secs, o, |blob|)
    ensures ShowsSections(m, root, blob, o, secs)
  {
    hide ReadVa, Canonical, Painted, Fits, AllFit, Covers, RawByte;
    forall at | 0 <= at < o.sizeOfImage && Canonical(Add64(o.imageBase, at))
      ensures forall i: nat :: LastCover(secs, i, at) ==>
                ReadVa(m, root, Add64(o.imageBase, at)) == RawByte(blob, o, secs[i], at)
      ensures (forall i :: 0 <= i < |secs| ==> !Covers(secs[i], at)) ==> ReadVa(m, root, Add64(o.imageBase, at)) == 0
    {
      forall i: nat | LastCover(secs, i, at)
        ensures ReadVa(m, root, Add64(o.imageBase, at)) == RawByte(blob, o, secs[i], at)
      {
        PaintedLast(blob, o, secs, |secs|, at, i);
      }
      if forall i :: 0 <= i < |secs| ==> !Covers(secs[i], at) {
        PaintedNone(blob, o, secs, |secs|, at);
      }
    }
  }

  /** LoadImage on a blob laid out this way: it loads exactly when the content of every section lies inside the image
      and the blob and the frames pay for the pages, and then byte `virtualAddress + k` of the image is the blob's byte
      `pointerToRawData + k`. */
  lemma LaidOutLoads(s: Hal, cr3: Word, blob: seq<Byte>, d: DosHeader, e: ExecHeader, o: OptionalHeader,
                     secs: seq<SectionHeader>)
    requires |blob| < 0x1_0000_0000_0000_0000
    requires HasHeaders(blob, d, e, o) && ForKernel(d, e, o) && HasSections(blob, e, secs) && |secs| >= 1
    requires PlacedWell(ImageOf(o, secs)) && CanLoad(s, cr3, o.imageBase, PageCount(o.sizeOfImage))
    ensures var root := cr3 / 0x1000;
      var paid := s.free >= Cost(s.mem, root, o.imageBase, 0, PageCount(o.sizeOfImage));
      Construct(blob).blob == blob &&
      var (s', l', r) := LoadImage(s, cr3, Construct(blob));
      && r == (if !paid then Failed(OutOfMemory)
               else if AllInside(secs, o, |blob|) then Loaded(o.imageBase) else Failed(InvalidData))
      && (r.Loaded? ==> AllInside(secs, o, |blob|) && ShowsSections(s'.mem, root, blob, o, secs))
  {
    hide *;
    var l := Construct(blob);
    ConstructExact(blob, d, e, o);
    NotBad(d, e, o);
    ReadyExact(blob, d, e, o);
    SectionsFit(blob, e, secs);
    ParseIs(blob, d, e, o, secs);
    FitIs(o, secs, |blob|);
    LoadImageSpec(s, cr3, l);
    if LoadImage(s, cr3, l).2.Loaded? {
      SectionsShown(LoadImage(s, cr3, l).0.mem, cr3 / 0x1000, blob, o, secs);
    }
  }

  lemma NotBad(d: DosHeader, e: ExecHeader, o: OptionalHeader)
    requires ForKernel(d, e, o)
    ensures 1 <= o.sizeOfImage <= 0x400_0000
  {
  }
}
