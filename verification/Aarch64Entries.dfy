/** The address both aarch64 walks return for four given table words
    (uhyve-aarch64.c:114-190). */
module Aarch64Entries {
  import opened Aarch64

  lemma Mask(e: bv64)
    ensures e & PT_ADDR_MASK == e & 0xFFFFFFFFF000
  {
  }

  lemma Added(a: bv64, b: bv64, sum: bv64)
    requires sum == a + b
    ensures Add(a, b) == sum
  {
  }

  lemma EntryWord(m: Machine, word: bv64 -> bv64, table: bv64, index: bv64)
    requires m.word == word
    ensures EntryOf(m, table, index) == word(table + 8 * index)
  {
  }

  lemma TableAddress(m: Machine, guestMem: bv64, e: bv64, page: bv64, table: bv64)
    requires m.guestMem == guestMem && page == e & 0xFFFFFFFFF000 && table == guestMem + page
    ensures NextTable(m, e) == table
  {
    hide Add;
    Mask(e);
    Added(guestMem, page, table);
  }

  lemma RootAddress(m: Machine, guestMem: bv64, elfEntry: bv64, root: bv64)
    requires m.guestMem == guestMem && m.elfEntry == elfEntry && root == guestMem + elfEntry + 0x1000
    ensures Root(m) == root
  {
    hide Add;
    var low := guestMem + elfEntry;
    Added(guestMem, elfEntry, low);
    Added(low, 0x1000, root);
  }

  lemma PageOnlyOf(a: bv64)
    ensures PageOnly(a) == a & 0xFFFFFFFFF000
  {
  }

  lemma WithinRange(va: bv64, start: bv64, size: bv64)
    ensures Within(va, start, size) <==> start <= va < start + size
  {
  }

  lemma StaticRange(m: Machine, va: bv64)
    ensures IsStatic(m, va) <==> Within(va, m.staticStart, m.staticSize)
  {
    hide Within;
  }

  lemma IndicesOf(i0: bv64, i1: bv64, i2: bv64, i3: bv64, off: bv64, va: bv64)
    requires i0 < 512 && i1 < 512 && i2 < 512 && i3 < 512 && off < 4096
    requires va == (i0 << 39) | (i1 << 30) | (i2 << 21) | (i3 << 12) | off
    ensures Index(va, 3) == i0 && Index(va, 2) == i1 && Index(va, 1) == i2 && Index(va, 0) == i3
    ensures va & 0xFFF == off
  {
  }

  lemma EntriesWalk(m: Machine, va: bv64, e0: bv64, e1: bv64, e2: bv64, e3: bv64)
    requires EntryOf(m, Root(m), Index(va, 3)) == e0 && EntryOf(m, NextTable(m, e0), Index(va, 2)) == e1
    requires EntryOf(m, NextTable(m, e1), Index(va, 1)) == e2 && EntryOf(m, NextTable(m, e2), Index(va, 0)) == e3
    requires PageOnly(Root(m)) == Root(m)
    ensures FlatWalk(m, va) == if IsStatic(m, va) then va else PageAndOffset(e3, va)
    ensures VirtToPhys(m, va) == if e0 != 0 && e1 != 0 && e2 != 0 && e3 != 0 then LeafResult(e3, va) else (0, 0)
  {
    if !IsStatic(m, va) { FlatByIndex(m, va); }
    hide Index, EntryOf, NextTable, Root, PageAndOffset, LeafResult, IsStatic, PageOnly;
  }

  lemma LeafOf(e: bv64, va: bv64, off: bv64, page: bv64)
    requires va & 0xFFF == off && page == e & 0xFFFFFFFFF000
    ensures PageAndOffset(e, va) == page | off && LeafResult(e, va) == (page | off, page + 0x1000)
  {
    LeafIsFlat(e, va);
    PageOf(e, va);
    Mask(e);
    hide LeafResult;
  }

  /** Both walks of an address given by its four indices and its offset, for any four
      words e0..e3 on the way: `page` n is the frame in word n, `table` n where it lies. */
  lemma FourEntries(word: bv64 -> bv64, guestMem: bv64, elfEntry: bv64, start: bv64, size: bv64,
                    i0: bv64, i1: bv64, i2: bv64, i3: bv64, off: bv64, va: bv64, root: bv64,
                    e0: bv64, e1: bv64, e2: bv64, e3: bv64, page0: bv64, page1: bv64, page2: bv64, page3: bv64,
                    table0: bv64, table1: bv64, table2: bv64)
    requires i0 < 512 && i1 < 512 && i2 < 512 && i3 < 512 && off < 4096
    requires va == (i0 << 39) | (i1 << 30) | (i2 << 21) | (i3 << 12) | off
    requires root == guestMem + elfEntry + 0x1000 && root & 0xFFFFFFFFF000 == root
    requires page0 == e0 & 0xFFFFFFFFF000 && page1 == e1 & 0xFFFFFFFFF000
    requires page2 == e2 & 0xFFFFFFFFF000 && page3 == e3 & 0xFFFFFFFFF000
    requires table0 == guestMem + page0 && table1 == guestMem + page1 && table2 == guestMem + page2
    requires word(root + 8 * i0) == e0 && word(table0 + 8 * i1) == e1
    requires word(table1 + 8 * i2) == e2 && word(table2 + 8 * i3) == e3
    ensures var m := Machine(word, guestMem, elfEntry, start, size);
            FlatWalk(m, va) == if start <= va < start + size then va else page3 | off
    ensures var m := Machine(word, guestMem, elfEntry, start, size);
            VirtToPhys(m, va)
            == if e0 != 0 && e1 != 0 && e2 != 0 && e3 != 0 then (page3 | off, page3 + 0x1000) else (0, 0)
  {
    hide *;
    var m := Machine(word, guestMem, elfEntry, start, size);
    IndicesOf(i0, i1, i2, i3, off, va);
    RootAddress(m, guestMem, elfEntry, root);
    TableAddress(m, guestMem, e0, page0, table0);
    TableAddress(m, guestMem, e1, page1, table1);
    TableAddress(m, guestMem, e2, page2, table2);
    EntryWord(m, word, root, i0);
    EntryWord(m, word, table0, i1);
    EntryWord(m, word, table1, i2);
    EntryWord(m, word, table2, i3);
    PageOnlyOf(root);
    EntriesWalk(m, va, e0, e1, e2, e3);
    LeafOf(e3, va, off, page3);
    StaticRange(m, va);
    WithinRange(va, start, size);
  }
}
