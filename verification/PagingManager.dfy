/** The page-table manager as functions on states: walk, map, unmap, translate. */
module PagingManager {
  import opened Words
  import opened PhysicalMemory
  import opened FrameAllocator
  import opened PageTables
  import opened Entries

  datatype Status = Success | InvalidData | OutOfMemory

  /** A pointer to a page-table word, or null. */
  datatype Slot = NoSlot | At(table: nat, idx: Index)

  function IndexAt(va: Word, shift: Shift): Index {
    va / Reach(shift) % 0x200
  }

  /** One level of mm_walk_page: make entry `idx` of `table` point to a table.  False when the walk stops. */
  function WalkStep(s: Hal, table: nat, idx: Index, shift: Shift, alloc: bool): (Hal, bool)
    requires shift > 12
  {
    var e := Load(s.mem, table, idx);
    if !Present(e) then
      if !alloc then (s, false)
      else
        var (s1, frame) := Alloc(s);
        if frame == 0 then (s1, false)
        else (s1.(mem := Store(s1.mem, table, idx, Or64(frame, 7))), true)
    else if LargePage(e) then
      if !alloc then (s, false)
      else
        var (s1, frame) := Alloc(s);
        if frame == 0 then (s1, false)
        else
          var filled := StoreFrame(s1.mem, frame / 0x1000, SplitFrame(Load(s1.mem, table, idx), shift));
          (s1.(mem := Store(filled, table, idx, Or64(frame, 7))), true)
    else
      (s.(mem := Store(s.mem, table, idx, Or64(e, 7))), true)
  }

  /** The loop of mm_walk_page from the table that is indexed at `shift`. */
  function WalkFrom(s: Hal, table: nat, va: Word, shift: Shift, alloc: bool): (Hal, Slot)
    decreases shift
  {
    if shift == 12 then (s, At(table, IndexAt(va, 12)))
    else
      var (s1, ok) := WalkStep(s, table, IndexAt(va, shift), shift, alloc);
      if !ok then (s1, NoSlot)
      else WalkFrom(s1, Load(s1.mem, table, IndexAt(va, shift)) / 0x1000, va, shift - 9, alloc)
  }

  /** mm_walk_page. */
  function Walk(s: Hal, cr3: Word, va: Word, alloc: bool): (Hal, Slot) {
    if cr3 == 0 then (s, NoSlot) else WalkFrom(s, cr3 / 0x1000, va, 39, alloc)
  }

  /** mm_map_page_in, and mm_map_page with the running cr3. */
  function MapPage(s: Hal, cr3: Word, va: Word, pa: Word, flags: Word): (Hal, Status) {
    if pa == 0 || pa % 0x1000 != 0 then (s, InvalidData)
    else
      var (s1, slot) := Walk(s, cr3, va, true);
      if slot.NoSlot? then (s1, InvalidData)
      else (s1.(mem := Store(s1.mem, slot.table, slot.idx, LeafEntry(pa, flags))), Success)
  }

  /** mm_unmap_page: the frame's address, 0 when there was none. */
  function UnmapPage(s: Hal, cr3: Word, va: Word): (Hal, Word) {
    var (s1, slot) := Walk(s, cr3, va, false);
    if slot.NoSlot? || !Present(Load(s1.mem, slot.table, slot.idx)) then (s1, 0)
    else
      (s1.(mem := Store(s1.mem, slot.table, slot.idx, 0)), FrameOf(Load(s1.mem, slot.table, slot.idx)) * 0x1000)
  }

  /** mm_get_page_addr: the physical address, 0 when there is none. */
  function GetPageAddr(mem: Memory, cr3: Word, va: Word): Word {
    var pml4e := Load(mem, cr3 / 0x1000, IndexAt(va, 39));
    if !Present(pml4e) then 0
    else
      var pdpte := Load(mem, pml4e / 0x1000, IndexAt(va, 30));
      if !Present(pdpte) then 0
      else if LargePage(pdpte) then FrameOf(pdpte) / 0x4_0000 * 0x4_0000 * 0x1000 + va % 0x4000_0000
      else
        var pde := Load(mem, pdpte / 0x1000, IndexAt(va, 21));
        if !Present(pde) then 0
        else if LargePage(pde) then FrameOf(pde) / 0x200 * 0x200 * 0x1000 + va % 0x20_0000
        else
          var pte := Load(mem, pde / 0x1000, IndexAt(va, 12));
          if !Present(pte) then 0 else FrameOf(pte) * 0x1000 + va % 0x1000
  }
}
