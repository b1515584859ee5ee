/** The two page walks of the aarch64 port (uhyve-aarch64.c:114-190), in the
    64-bit arithmetic of the original. `word` is the 8-byte word at a host
    address, `guestMem` the host address of guest memory. */
module Aarch64 {
  const PT_ADDR_MASK: bv64 := 0xFFFFFFFFF000
  const ADDR_48: bv64 := 0xFFFFFFFFFFFF
  const PAGE_SIZE: bv64 := 0x1000

  datatype Machine = Machine(word: bv64 -> bv64, guestMem: bv64, elfEntry: bv64, staticStart: bv64, staticSize: bv64)

  /** 64-bit addition of addresses. */
  function Add(a: bv64, b: bv64): bv64 {
    a + b
  }

  /** guest_mem + elf_entry + PAGE_SIZE: the level 0 table. */
  function Root(m: Machine): bv64 {
    Add(Add(m.guestMem, m.elfEntry), PAGE_SIZE)
  }

  function EntryOf(m: Machine, table: bv64, index: bv64): bv64 {
    (m.word)(table + 8 * index)
  }

  /** aarch64_virt_to_phys: the walk written out level by level. */
  function FlatWalk(m: Machine, va: bv64): bv64 {
    if IsStatic(m, va) then va
    else
      var pt0 := PageOnly(Root(m));
      var pt1 := NextTable(m, EntryOf(m, pt0, (va & 0xFF8000000000) >> 39));
      var pt2 := NextTable(m, EntryOf(m, pt1, (va & 0x7FC0000000) >> 30));
      var pt3 := NextTable(m, EntryOf(m, pt2, (va & 0x3FE00000) >> 21));
      PageAndOffset(EntryOf(m, pt3, (va & 0x1FF000) >> 12), va)
  }

  predicate IsStatic(m: Machine, va: bv64) {
    Within(va, m.staticStart, m.staticSize)
  }

  predicate Within(va: bv64, start: bv64, size: bv64) {
    va >= start && va < start + size
  }

  function PageOnly(a: bv64): bv64 {
    a & PT_ADDR_MASK
  }

  function PageAndOffset(e: bv64, va: bv64): bv64 {
    (e & PT_ADDR_MASK) | (va & 0xFFF)
  }

  function NextTable(m: Machine, e: bv64): bv64 {
    Add(m.guestMem, e & PT_ADDR_MASK)
  }

  /** `virtual_address >> PAGE_BITS >> level * PAGE_MAP_BITS & PAGE_MAP_MASK`. */
  function Index(va: bv64, level: nat): bv64
    requires level <= 3
  {
    (if level == 0 then va >> 12 else if level == 1 then (va >> 12) >> 9
     else if level == 2 then (va >> 12) >> 18 else (va >> 12) >> 27) & 0x1FF
  }

  /** virt_to_phys_for_table; (0, 0) stays when an entry is zero. */
  function WalkTable(m: Machine, va: bv64, table: bv64, level: nat): (bv64, bv64)
    requires level <= 3
    decreases level
  {
    var e := EntryOf(m, table, Index(va, level));
    if e == 0 then (0, 0)
    else if level == 0 then
      LeafResult(e, va)
    else WalkTable(m, va, NextTable(m, e), level - 1)
  }

  /** The level 0 case: page_mask, phy and off of the original. */
  function LeafResult(e: bv64, va: bv64): (bv64, bv64) {
    var pageMask: bv64 := (0xFFFFFFFFFFFFFFFF << 12) & ADDR_48;
    var phy := e & pageMask;
    (phy | ((va & !pageMask) & ADDR_48), phy + PAGE_SIZE)
  }

  /** The page end that belongs to a physical address. */
  function PageEnd(pa: bv64): bv64 {
    (pa & PT_ADDR_MASK) + PAGE_SIZE
  }

  function VirtToPhys(m: Machine, va: bv64): (bv64, bv64) {
    WalkTable(m, va, Root(m), 3)
  }

  /** Every entry on the way from `table` down is nonzero. */
  predicate Present(m: Machine, va: bv64, table: bv64, level: nat)
    requires level <= 3
    decreases level
  {
    var e := EntryOf(m, table, Index(va, level));
    e != 0 && (level == 0 || Present(m, va, NextTable(m, e), level - 1))
  }

  lemma Indices(va: bv64)
    ensures Index(va, 3) == (va & 0xFF8000000000) >> 39
    ensures Index(va, 2) == (va & 0x7FC0000000) >> 30
    ensures Index(va, 1) == (va & 0x3FE00000) >> 21
    ensures Index(va, 0) == (va & 0x1FF000) >> 12
  {
  }

  lemma LeafIsFlat(e: bv64, va: bv64)
    ensures LeafResult(e, va).0 == PageAndOffset(e, va)
    ensures LeafResult(e, va).1 == PageEnd(PageAndOffset(e, va))
  {
    LeafMask(va);
    PageOf(e, va);
  }

  lemma LeafMask(va: bv64)
    ensures ((0xFFFFFFFFFFFFFFFF as bv64 << 12) & ADDR_48) == PT_ADDR_MASK
    ensures (va & !PT_ADDR_MASK) & ADDR_48 == va & 0xFFF
  {
  }

  lemma PageOf(e: bv64, va: bv64)
    ensures ((e & PT_ADDR_MASK) | (va & 0xFFF)) & PT_ADDR_MASK == e & PT_ADDR_MASK
  {
  }

  /** Outside the statically mapped range and with a page-aligned root below
      2^48, the recursive walk returns the flat walk's address and the end of its
      page when all four entries are nonzero, and (0, 0) otherwise. */
  lemma FlatEqualsRecursive(m: Machine, va: bv64)
    requires !IsStatic(m, va)
    requires PageOnly(Root(m)) == Root(m)
    ensures VirtToPhys(m, va)
            == if Present(m, va, Root(m), 3) then (FlatWalk(m, va), PageEnd(FlatWalk(m, va))) else (0, 0)
  {
    Indices(va);
    FlatByIndex(m, va);
    hide Index, EntryOf, NextTable, Root, PageAndOffset, PageEnd, LeafResult, FlatWalk, IsStatic, PageOnly;
    var t2 := NextTable(m, EntryOf(m, Root(m), Index(va, 3)));
    var t1 := NextTable(m, EntryOf(m, t2, Index(va, 2)));
    var t0 := NextTable(m, EntryOf(m, t1, Index(va, 1)));
    LeafIsFlat(EntryOf(m, t0, Index(va, 0)), va);
  }

  /** The flat walk in terms of the recursive walk's indices. */
  lemma FlatByIndex(m: Machine, va: bv64)
    requires !IsStatic(m, va)
    requires PageOnly(Root(m)) == Root(m)
    ensures var t2 := NextTable(m, EntryOf(m, Root(m), Index(va, 3)));
            var t1 := NextTable(m, EntryOf(m, t2, Index(va, 2)));
            var t0 := NextTable(m, EntryOf(m, t1, Index(va, 1)));
            FlatWalk(m, va) == PageAndOffset(EntryOf(m, t0, Index(va, 0)), va)
  {
    Indices(va);
    hide Index, EntryOf, NextTable, PageAndOffset, IsStatic, PageOnly, Root;
  }
}
