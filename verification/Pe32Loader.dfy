/** Loading a PE32+ image: back the whole image with fresh frames, then copy its sections in. */
module Pe32Loader {
  import opened Words
  import opened Bytes
  import opened PhysicalMemory
  import opened FrameAllocator
  import opened PagingManager
  import opened SectionLoader
  import opened PefLoader

  // The headers are laid out back to back: the executable header at 128, the optional header at 152, the end of the
  // fixed structures at 248.  A section header has 40 bytes.

  /** A loader object: its blob and its fields.  An image address of 0 means not loaded. */
  datatype Loader = Loader(blob: seq<Byte>, bad: bool, image: Word)

  /** The header fields the loader reads. */
  function Machine(blob: seq<Byte>): nat requires |blob| >= 248 { Le2(blob, 132) }

  function SectionCount(blob: seq<Byte>): nat requires |blob| >= 248 { Le2(blob, 134) }

  function OptionalSize(blob: seq<Byte>): nat requires |blob| >= 248 { Le2(blob, 148) }

  function ImageBase(blob: seq<Byte>): Word requires |blob| >= 248 { Le8(blob, 176) }

  function ImageSize(blob: seq<Byte>): nat requires |blob| >= 248 { Le4(blob, 208) }

  function Subsystem(blob: seq<Byte>): nat requires |blob| >= 248 { Le2(blob, 220) }

  predicate HasDosMagic(blob: seq<Byte>) requires |blob| >= 248 { blob[0] == 0x4D && blob[1] == 0x5A }

  /** The constructor from a blob. */
  function Construct(blob: seq<Byte>): Loader {
    Loader(blob,
           !(&& |blob| >= 248
             && HasDosMagic(blob)
             && Machine(blob) == 0x8664
             && Subsystem(blob) == 0x11
             && 1 <= ImageSize(blob) <= 0x400_0000),
           0)
  }

  /** The section header fields the loader reads. */
  datatype Section = Section(va: nat, rawSize: nat, rawAt: nat)

  function TableAtOffset(blob: seq<Byte>): nat requires |blob| >= 248 { 152 + OptionalSize(blob) }

  /** The section table lies inside the blob. */
  predicate TableOk(blob: seq<Byte>) {
    && |blob| >= 248
    && SectionCount(blob) >= 1
    && TableAtOffset(blob) <= |blob|
    && SectionCount(blob) <= (|blob| - TableAtOffset(blob)) / 40
  }

  function SectionAt(blob: seq<Byte>, i: nat): (sec: Section)
    requires TableOk(blob) && i < SectionCount(blob)
    ensures sec.va < 0x1_0000_0000 && sec.rawSize < 0x1_0000_0000 && sec.rawAt < 0x1_0000_0000
  {
    var at := TableAtOffset(blob) + 40 * i;
    assert at + 40 <= |blob|;
    Section(Le4(blob, at + 12), Le4(blob, at + 16), Le4(blob, at + 20))
  }

  /** What LoadImage reads from the headers. */
  datatype Image = Image(base: Word, size: nat, sections: seq<Section>)

  function ParseImage(blob: seq<Byte>): (img: Image)
    requires TableOk(blob)
    ensures img.size < 0x1_0000_0000
  {
    Image(ImageBase(blob), ImageSize(blob),
          seq(SectionCount(blob), i requires 0 <= i < SectionCount(blob) => SectionAt(blob, i)))
  }

  /** a - b in unsigned 32-bit arithmetic. */
  function Sub32(a: nat, b: nat): nat {
    (a - b) % 0x1_0000_0000
  }

  /** The loader's check of a section with content. */
  predicate SectionChecks(sec: Section, imageSize: nat, size: Word) {
    !(|| sec.va > imageSize
      || sec.rawSize > Sub32(imageSize, sec.va)
      || sec.rawAt > size
      || sec.rawSize > Sub64(size, sec.rawAt))
  }

  /** A section's raw range lies inside the blob and its target inside the image. */
  predicate SectionFits(sec: Section, imageSize: nat, size: nat) {
    sec.rawSize == 0 || (sec.va + sec.rawSize <= imageSize && sec.rawAt + sec.rawSize <= size)
  }

  /** No wrap-around ever decides a check. */
  lemma ChecksExact(sec: Section, imageSize: nat, size: Word)
    requires imageSize < 0x1_0000_0000 && sec.rawSize > 0
    ensures SectionChecks(sec, imageSize, size) <==> SectionFits(sec, imageSize, size)
  {
  }

  /** The section loop of LoadImage from section i on.  False when a section does not check. */
  function CopySections(m: Memory, root: nat, blob: seq<Byte>, img: Image, i: nat): (Memory, bool)
    requires |blob| < 0x1_0000_0000_0000_0000 && img.size < 0x1_0000_0000
    decreases |img.sections| - i
  {
    if i >= |img.sections| then (m, true)
    else
      var sec := img.sections[i];
      if sec.rawSize == 0 then CopySections(m, root, blob, img, i + 1)
      else if !SectionChecks(sec, img.size, |blob|) then (m, false)
      else
        ChecksExact(sec, img.size, |blob|);
        var m' := CopySafe(m, root, blob[sec.rawAt..sec.rawAt + sec.rawSize], Add64(img.base, sec.va),
                           Sub32(img.size, sec.va));
        CopySections(m', root, blob, img, i + 1)
  }

  /** The copies of the section loop fault nowhere from section i on. */
  predicate SectionsNoFault(m: Memory, root: nat, blob: seq<Byte>, img: Image, i: nat)
    requires |blob| < 0x1_0000_0000_0000_0000 && img.size < 0x1_0000_0000
    decreases |img.sections| - i
  {
    i >= |img.sections| ||
    var sec := img.sections[i];
    if sec.rawSize == 0 then SectionsNoFault(m, root, blob, img, i + 1)
    else if !SectionChecks(sec, img.size, |blob|) then true
    else
      ChecksExact(sec, img.size, |blob|);
      var src, va := blob[sec.rawAt..sec.rawAt + sec.rawSize], Add64(img.base, sec.va);
      && (va != 0 ==> NoFault(m, root, src, va, 0))
      && SectionsNoFault(CopySafe(m, root, src, va, Sub32(img.size, sec.va)), root, blob, img, i + 1)
  }

  /** LoadImage can start: not loaded yet, accepted by the constructor, section table inside the blob. */
  predicate Ready(l: Loader) {
    l.image == 0 && !l.bad && |l.blob| >= 248 && HasDosMagic(l.blob) && TableOk(l.blob)
  }

  /** PE32Loader::LoadImage. */
  function LoadImage(s: Hal, cr3: Word, l: Loader): (Hal, Loader, Outcome)
    requires |l.blob| < 0x1_0000_0000_0000_0000
  {
    if l.image != 0 then (s, l, Loaded(l.image))
    else if !Ready(l) then (s, l, Failed(InvalidData))
    else
      var img := ParseImage(l.blob);
      var n := PageCount(img.size);
      var (s1, status) := MapPages(s, cr3, img.base, 0, n);
      if status != Success then (s1, l, Failed(OutOfMemory))
      else
        var (m, ok) := CopySections(s1.mem, cr3 / 0x1000, l.blob, img, 0);
        if !ok then (UnmapPages(s1.(mem := m), cr3, img.base, n), l, Failed(InvalidData))
        else (s1.(mem := m), l.(image := img.base), Loaded(img.base))
  }

  // ---------------------------------------------------------------- what the image holds

  /** The first i sections fit. */
  predicate AllFit(img: Image, size: nat, i: nat) {
    i <= |img.sections| && forall j :: 0 <= j < i ==> SectionFits(img.sections[j], img.size, size)
  }

  /** Image byte o after the first i sections: from the last section in table order that covers it, else zero. */
  function Painted(blob: seq<Byte>, img: Image, i: nat, o: nat): Byte
    requires AllFit(img, |blob|, i)
  {
    if i == 0 then 0
    else
      var sec := img.sections[i - 1];
      if sec.va <= o < sec.va + sec.rawSize then blob[sec.rawAt + (o - sec.va)] else Painted(blob, img, i - 1, o)
  }
}
