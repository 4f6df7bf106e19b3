/** The kernel's code as it runs: physical memory and the allocator's statics updated in place, step by step.  Every
    method is proved against the function of the same purpose on states. */
module Machine {
  import opened Words
  import opened Bytes
  import opened PhysicalMemory
  import opened FrameAllocator
  import opened PageTables
  import opened Entries
  import opened PagingManager
  import opened KernelTables
  import opened Boot
  import opened SectionLoader
  import opened PefContainer
  import opened PefLoader
  import Pe32Loader

  /** Filling a frame word by word. */
  function Filled(m: Memory, f: nat, content: Frame, i: nat): Memory
    requires i <= 512
  {
    if f < |m| then m[f := content[..i] + m[f][i..]] else m
  }

  lemma FillNext(m: Memory, f: nat, content: Frame, i: nat)
    requires i < 512
    ensures Store(Filled(m, f, content, i), f, i, content[i]) == Filled(m, f, content, i + 1)
  {
    if f < |m| {
      assert (content[..i] + m[f][i..])[i := content[i]] == content[..i + 1] + m[f][i + 1..];
    }
  }

  lemma FillEnds(m: Memory, f: nat, content: Frame)
    ensures Filled(m, f, content, 0) == m
    ensures Filled(m, f, content, 512) == StoreFrame(m, f, content)
  {
    if f < |m| {
      assert content[..0] + m[f][0..] == m[f];
      assert content[..512] + m[f][512..] == content;
    }
  }

  lemma InitUnfold(s: Hal, limit: Word, s1: Hal, pml4: Word)
    requires limit <= 0xFFFF_FFFF_C000_0000 && (s1, pml4) == Alloc(s)
    ensures InitKernelTables(s, limit)
         == if pml4 == 0 then (s1, 0)
            else (MapFrom(s1, pml4 / 0x1000, 0, limit).0, if MapFrom(s1, pml4 / 0x1000, 0, limit).1 then pml4 else 0)
  {
    hide Alloc, MapFrom;
  }

  lemma MapFromUnfold(s: Hal, root: nat, from: Word, limit: Word)
    requires limit <= 0xFFFF_FFFF_C000_0000
    ensures MapFrom(s, root, from, limit)
         == if from >= limit then (s, true)
            else if !MapGiB(s, root, from).1 then (MapGiB(s, root, from).0, false)
            else MapFrom(MapGiB(s, root, from).0, root, from + 0x4000_0000, limit)
  {
    hide MapGiB;
  }

  lemma CarveIs(start: Word, size: Word, base: Word, kept: Word, limit: Word)
    requires (base, kept) == KeptRegion(start, size)
    requires var e := Add64(start, size);
      limit == if e > 0x1_0000_0000 then Add64(e, 0x3FFF_FFFF) - Add64(e, 0x3FFF_FFFF) % 0x4000_0000 else 0x1_0000_0000
    ensures CarveUp(start, size) == Carve(base, kept / 2, Add64(base, kept / 2), kept - kept / 2, limit)
  {
    hide KeptRegion, Add64;
  }

  lemma SetUpIs(mem: Memory, start: Word, size: Word)
    requires start + size <= 0xFFFF_FFFF_C000_0000
    ensures var c := CarveUp(start, size);
      c.mapLimit <= 0xFFFF_FFFF_C000_0000
      && SetUp(mem, start, size) == InitKernelTables(Init(Reset(mem), c.poolStart, c.poolSize), c.mapLimit)
  {
    LimitSpec(start, size);
    hide CarveUp, Init, InitKernelTables;
  }

  class Kernel {
    var mem: Memory
    var base: Word
    var cursor: Word
    var end: Word
    var freeHead: Word
    var free: Word
    var used: Word

    function State(): Hal
      reads this
    {
      Hal(mem, base, cursor, end, freeHead, free, used)
    }

    /** Statics before start-up. */
    constructor (mem: Memory)
      ensures State() == Reset(mem)
    {
      this.mem := mem;
      base, cursor, end, freeHead, free, used := 0, 0, 0, 0, 0, 0;
    }

    // -------------------------------------------------------------- frame allocator

    method PmmiInit(base: Word, size: Word)
      modifies this
      ensures State() == Init(old(State()), base, size)
    {
      var start := AlignUp(base);
      var stop := AlignDown(Add64(base, size));
      if stop <= start {
        cursor := 0;
        end := 0;
        return;
      }
      this.base := start;
      cursor := start;
      end := stop;
      freeHead := 0;
      free := (stop - start) / 0x1000;
      used := 0;
    }

    method AllocFrame() returns (frame: Word)
      modifies this
      ensures (State(), frame) == Alloc(old(State()))
    {
      frame := 0;
      if freeHead != 0 {
        frame := freeHead;
        freeHead := Load(mem, frame / 0x1000, 0);
      } else if cursor != 0 && cursor < end {
        frame := cursor;
        cursor := Add64(cursor, 0x1000);
      }
      if frame == 0 { return; }
      mem := StoreFrame(mem, frame / 0x1000, Zeros());
      free := Sub64(free, 1);
      used := Add64(used, 1);
    }

    method FreeFrame(frame: Word)
      modifies this
      ensures State() == Free(old(State()), frame)
    {
      if frame == 0 || frame % 0x1000 != 0 { return; }
      if frame < base || frame >= cursor { return; }
      mem := Store(mem, frame / 0x1000, 0, freeHead);
      freeHead := frame;
      free := Add64(free, 1);
      used := Sub64(used, 1);
    }

    // -------------------------------------------------------------- page tables

    /** Writes the 512 entries that replace the large page `e` into a frame. */
    method FillSplit(f: nat, e: Word, shift: Shift)
      requires shift > 12
      modifies `mem
      ensures mem == StoreFrame(old(mem), f, SplitFrame(e, shift))
    {
      ghost var m := mem;
      ghost var content := SplitFrame(e, shift);
      FillEnds(m, f, content);
      var i := 0;
      while i < 512
        invariant i <= 512 && mem == Filled(m, f, content, i)
      {
        FillNext(m, f, content, i);
        mem := Store(mem, f, i, SplitEntry(e, shift, i));
        i := i + 1;
      }
    }

    method WalkPage(cr3: Word, va: Word, alloc: bool) returns (slot: Slot)
      modifies this
      ensures (State(), slot) == Walk(old(State()), cr3, va, alloc)
    {
      if cr3 == 0 { return NoSlot; }
      var table: nat := cr3 / 0x1000;
      var shift: Shift := 39;
      hide Alloc, Or64, SplitFrame, Present, LargePage, Load, Store;
      while shift > 12
        invariant WalkFrom(State(), table, va, shift, alloc) == Walk(old(State()), cr3, va, alloc)
        decreases shift
      {
        var idx := IndexAt(va, shift);
        var entry := Load(mem, table, idx);
        if !Present(entry) {
          if !alloc { return NoSlot; }
          var frame := AllocFrame();
          if frame == 0 { return NoSlot; }
          mem := Store(mem, table, idx, Or64(frame, 7));
        } else if LargePage(entry) {
          if !alloc { return NoSlot; }
          var frame := AllocFrame();
          if frame == 0 { return NoSlot; }
          FillSplit(frame / 0x1000, Load(mem, table, idx), shift);
          mem := Store(mem, table, idx, Or64(frame, 7));
        } else {
          mem := Store(mem, table, idx, Or64(entry, 7));
        }
        table := Load(mem, table, idx) / 0x1000;
        shift := shift - 9;
      }
      slot := At(table, IndexAt(va, 12));
    }

    method MapPageIn(cr3: Word, va: Word, pa: Word, flags: Word) returns (status: Status)
      modifies this
      ensures (State(), status) == MapPage(old(State()), cr3, va, pa, flags)
    {
      if pa == 0 { return InvalidData; }
      if pa % 0x1000 != 0 { return InvalidData; }
      var slot := WalkPage(cr3, va, true);
      if slot.NoSlot? { return InvalidData; }
      mem := Store(mem, slot.table, slot.idx, LeafEntry(pa, flags));
      return Success;
    }

    method UnmapPageAt(cr3: Word, va: Word) returns (frame: Word)
      modifies this
      ensures (State(), frame) == UnmapPage(old(State()), cr3, va)
    {
      var slot := WalkPage(cr3, va, false);
      if slot.NoSlot? || !Present(Load(mem, slot.table, slot.idx)) { return 0; }
      frame := FrameOf(Load(mem, slot.table, slot.idx)) * 0x1000;
      mem := Store(mem, slot.table, slot.idx, 0);
    }

    /** Fills a page directory with the 2 MiB leaves of the GiB at `from`. */
    method FillDirectory(f: nat, from: Word)
      modifies `mem
      ensures mem == StoreFrame(old(mem), f, InitFrame(from))
    {
      ghost var m := mem;
      ghost var content := InitFrame(from);
      FillEnds(m, f, content);
      var i := 0;
      while i < 512
        invariant i <= 512 && mem == Filled(m, f, content, i)
      {
        FillNext(m, f, content, i);
        mem := Store(mem, f, i, InitEntry(from, i));
        i := i + 1;
      }
    }

    /** One GiB: the table above it, if missing, and its page directory. */
    method MapOneGiB(root: nat, from: Word) returns (ok: bool)
      modifies this
      ensures (State(), ok) == MapGiB(old(State()), root, from)
    {
      hide Alloc, Or64, InitFrame, Present, Load, Store;
      var idx := from / 0x80_0000_0000 % 0x200;
      if !Present(Load(mem, root, idx)) {
        var pdpt := AllocFrame();
        if pdpt == 0 { return false; }
        mem := Store(mem, root, idx, Or64(pdpt, 3));
      }
      var table := Load(mem, root, idx) / 0x1000;
      var pd := AllocFrame();
      if pd == 0 { return false; }
      mem := Store(mem, table, from / 0x4000_0000 % 0x200, Or64(pd, 3));
      FillDirectory(pd / 0x1000, from);
      return true;
    }

    method BuildKernelTables(limit: Word) returns (pml4: Word)
      requires limit <= 0xFFFF_FFFF_C000_0000
      modifies this
      ensures (State(), pml4) == InitKernelTables(old(State()), limit)
    {
      hide *;
      ghost var before := State();
      pml4 := AllocFrame();
      ghost var s := State();
      InitUnfold(before, limit, s, pml4);
      if pml4 == 0 { return 0; }
      var root := pml4 / 0x1000;
      var from: Word := 0;
      while from < limit
        invariant from <= limit + 0x4000_0000
        invariant MapFrom(State(), root, from, limit) == MapFrom(s, root, 0, limit)
        decreases limit + 0x4000_0000 - from
      {
        MapFromUnfold(State(), root, from, limit);
        var ok := MapOneGiB(root, from);
        if !ok { return 0; }
        from := from + 0x4000_0000;
      }
      MapFromUnfold(State(), root, from, limit);
    }

    /** The part of the handover region to use: all of it, or the larger side of the image window. */
    static method ChooseRegion(start: Word, size: Word) returns (regionBase: Word, regionSize: Word)
      ensures (regionBase, regionSize) == KeptRegion(start, size)
    {
      regionBase, regionSize := start, size;
      if regionBase < 0x4400_0000 && Add64(regionBase, regionSize) > 0x4000_0000 {
        var below: Word := if regionBase < 0x4000_0000 then 0x4000_0000 - regionBase else 0;
        var above: Word :=
          if Add64(regionBase, regionSize) > 0x4400_0000 then Add64(regionBase, regionSize) - 0x4400_0000 else 0;
        if below >= above {
          regionSize := below;
        } else {
          regionBase := 0x4400_0000;
          regionSize := above;
        }
      }
    }

    /** The memory set-up of hal_init_platform. */
    method SetUpMemory(start: Word, size: Word) returns (heapStart: Word, heapSize: Word, cr3: Word)
      requires State() == Reset(mem) && start + size <= 0xFFFF_FFFF_C000_0000
      modifies this
      ensures (State(), cr3) == SetUp(old(mem), start, size)
      ensures heapStart == CarveUp(start, size).heapStart && heapSize == CarveUp(start, size).heapSize
    {
      hide KeptRegion, Init, Add64, InitKernelTables, SetUp;
      var regionBase, regionSize := ChooseRegion(start, size);
      var usable := regionSize / 2;
      heapSize := usable;
      heapStart := regionBase;
      PmmiInit(Add64(regionBase, usable), regionSize - usable);
      var ramEnd := Add64(start, size);
      var limit: Word := 0x1_0000_0000;
      if ramEnd > 0x1_0000_0000 {
        limit := Add64(ramEnd, 0x3FFF_FFFF) - Add64(ramEnd, 0x3FFF_FFFF) % 0x4000_0000;
      }
      CarveIs(start, size, regionBase, regionSize, limit);
      LimitSpec(start, size);
      SetUpIs(old(mem), start, size);
      hide CarveUp;
      cr3 := BuildKernelTables(limit);
    }

    // -------------------------------------------------------------- loaders

    method UnmapRange(cr3: Word, from: Word, count: nat)
      modifies this
      ensures State() == UnmapPages(old(State()), cr3, from, count)
    {
      hide UnmapPage, Free;
      var n := count;
      while n > 0
        invariant UnmapPages(State(), cr3, from, n) == UnmapPages(old(State()), cr3, from, count)
      {
        n := n - 1;
        var frame := UnmapPageAt(cr3, PageAddr(from, n));
        FreeFrame(frame);
      }
    }

    /** The mapping loop both loaders run, with its rollback. */
    method MapRange(cr3: Word, from: Word, count: nat) returns (status: Status)
      modifies this
      ensures (State(), status) == MapPages(old(State()), cr3, from, 0, count)
    {
      hide MapPage, Alloc, Free, UnmapPages;
      var i := 0;
      while i < count
        invariant i <= count
        invariant MapPages(State(), cr3, from, i, count) == MapPages(old(State()), cr3, from, 0, count)
      {
        var frame := AllocFrame();
        var mapped := InvalidData;
        if frame != 0 {
          mapped := MapPageIn(cr3, PageAddr(from, i), frame, 14);
        }
        if frame == 0 || mapped != Success {
          FreeFrame(frame);
          UnmapRange(cr3, from, i);
          return OutOfMemory;
        }
        i := i + 1;
      }
      return Success;
    }

    /** The byte loop of a copy through the running translation. */
    method CopyBytes(root: nat, src: seq<Byte>, va: Word)
      modifies `mem
      ensures mem == CopyFrom(old(mem), root, src, va, 0)
    {
      var k := 0;
      while k < |src|
        invariant k <= |src|
        invariant CopyFrom(mem, root, src, va, k) == CopyFrom(old(mem), root, src, va, 0)
      {
        mem := WriteVa(mem, root, Add64(va, k), src[k]);
        k := k + 1;
      }
    }

    method CopyMemorySafe(root: nat, src: seq<Byte>, va: Word, size: Word)
      modifies `mem
      ensures mem == CopySafe(old(mem), root, src, va, size)
    {
      if va == 0 || |src| > size {
        if va != 0 {
          CopyBytes(root, seq(size, _ => 0), va);
        }
        return;
      }
      CopyBytes(root, src, va);
    }

    method LoadPefSection(cr3: Word, h: Header, src: Source) returns (r: Outcome)
      modifies this
      ensures (State(), r) == LoadSection(old(State()), cr3, h, src)
    {
      if src.NoSource? { return Failed(InvalidData); }
      var pages := h.vmSize / 0x1000 + (if h.vmSize % 0x1000 != 0 then 1 else 0);
      var status := MapRange(cr3, h.vmAddress, pages);
      if status != Success { return Failed(OutOfMemory); }
      if h.offsetSize > 0 {
        CopyMemorySafe(cr3 / 0x1000, src.bytes, h.vmAddress, h.vmSize);
      }
      return Loaded(h.vmAddress);
    }

    method FindPefSymbol(cr3: Word, blob: seq<Byte>, name: seq<Byte>, kind: int) returns (r: Outcome)
      requires |blob| < 0x1_0000_0000_0000_0000
      modifies this
      ensures (State(), r) == FindSymbol(old(State()), cr3, blob, name, kind)
    {
      var sect := new Byte[256](_ => 0);
      assert sect[..] == seq(256, _ => 0);
      var made := WriteName(sect, kind, name);
      if !made { return Failed(InvalidData); }
      var found, h := FindSectionLoop(blob, sect[..], kind);
      if !found { return Failed(InvalidData); }
      hide LoadSection, FindSection, MakeName, Offers;
      r := LoadPefSection(cr3, h, ContentOf(blob, h));
    }
  }

  /** A PE32 loader object over a blob. */
  class Pe32Object {
    const blob: seq<Byte>
    const bad: bool
    var image: Word

    function Value(): Pe32Loader.Loader
      reads this
    {
      Pe32Loader.Loader(blob, bad, image)
    }

    constructor (blob: seq<Byte>)
      ensures Value() == Pe32Loader.Construct(blob)
    {
      this.blob := blob;
      bad := Pe32Loader.Construct(blob).bad;
      image := 0;
    }

    /** Copies the sections in, stopping at the first that does not check. */
    method CopySections(k: Kernel, root: nat, img: Pe32Loader.Image) returns (ok: bool)
      requires |blob| < 0x1_0000_0000_0000_0000 && img.size < 0x1_0000_0000
      modifies k`mem
      ensures (k.mem, ok) == Pe32Loader.CopySections(old(k.mem), root, blob, img, 0)
    {
      hide CopySafe;
      var i := 0;
      while i < |img.sections|
        invariant i <= |img.sections|
        invariant Pe32Loader.CopySections(k.mem, root, blob, img, i)
               == Pe32Loader.CopySections(old(k.mem), root, blob, img, 0)
      {
        var sec := img.sections[i];
        if sec.rawSize != 0 {
          if !Pe32Loader.SectionChecks(sec, img.size, |blob|) { return false; }
          Pe32Loader.ChecksExact(sec, img.size, |blob|);
          k.CopyMemorySafe(root, blob[sec.rawAt..sec.rawAt + sec.rawSize], Add64(img.base, sec.va),
                           Pe32Loader.Sub32(img.size, sec.va));
        }
        i := i + 1;
      }
      return true;
    }

    method LoadImage(k: Kernel, cr3: Word) returns (r: Outcome)
      requires |blob| < 0x1_0000_0000_0000_0000
      modifies this, k
      ensures (k.State(), Value(), r) == Pe32Loader.LoadImage(old(k.State()), cr3, old(Value()))
    {
      hide Pe32Loader.CopySections, Pe32Loader.ParseImage, MapPages, UnmapPages;
      if image != 0 { return Loaded(image); }
      if !Pe32Loader.Ready(Value()) { return Failed(InvalidData); }
      var img := Pe32Loader.ParseImage(blob);
      var pages := PageCount(img.size);
      var status := k.MapRange(cr3, img.base, pages);
      if status != Success { return Failed(OutOfMemory); }
      var ok := CopySections(k, cr3 / 0x1000, img);
      if !ok {
        k.UnmapRange(cr3, img.base, pages);
        return Failed(InvalidData);
      }
      image := img.base;
      return Loaded(image);
    }
  }
}
