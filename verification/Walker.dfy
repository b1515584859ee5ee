/** virt_to_phys on x86-64 (uhyve-x86_64.c:1399-1443): the recursive walk of
    4-level paging, section 4.5 of the Intel SDM, Volume 3A. */
module Walker {
  import opened Pte
  import opened Bytes

  const BOOT_PML4: nat := 0x10000
  const TWO_47: nat := 0x8000_0000_0000

  /** PAGE_SIZE << level * PAGE_MAP_BITS. */
  function PageSize(level: nat): (size: U64)
    requires level <= 3
    ensures size > 0
  {
    if level == 0 then 0x1000 else if level == 1 then 0x20_0000 else if level == 2 then 0x4000_0000 else 0x80_0000_0000
  }

  function Index(va: U64, level: nat): nat
    requires level <= 3
  {
    va / PageSize(level) % 512
  }

  datatype Walk = Miss | Hit(pa: nat, end: nat)

  /** `virtual_address & ~page_mask`: the mask drops PG_XD, so bit 63 survives. */
  function Offset(va: U64, level: nat): nat
    requires level <= 3
  {
    va % PageSize(level) + (if va >= TWO_63 then TWO_63 else 0)
  }

  predicate IsLeaf(e: U64, level: nat) {
    level == 0 || (level < 3 && Has(e, PG_PSE))
  }

  /** virt_to_phys_for_table, from the table at physical address `table`. */
  function WalkTable(m: seq<byte>, va: U64, table: nat, level: nat): Walk
    requires level <= 3
    decreases level
  {
    var e := Load64(m, table + 8 * Index(va, level));
    if !Has(e, PG_PRESENT) then Miss
    else if IsLeaf(e, level) then
      var phy := Masked(e, PageSize(level));
      Hit(phy + Offset(va, level), phy + PageSize(level))
    else WalkTable(m, va, Masked(e, PAGE_SIZE), level - 1)
  }

  /** (physical_address, physical_address_page_end), (0, 0) when unmapped. */
  function VirtToPhys(m: seq<byte>, va: U64): (nat, nat) {
    match WalkTable(m, va, BOOT_PML4, 3)
    case Miss => (0, 0)
    case Hit(pa, end) => (pa, end)
  }

  /** The addresses of the entries a walk reads. */
  function WalkReads(m: seq<byte>, va: U64, table: nat, level: nat): set<nat>
    requires level <= 3
    decreases level
  {
    var a := table + 8 * Index(va, level);
    var e := Load64(m, a);
    if !Has(e, PG_PRESENT) || IsLeaf(e, level) then {a}
    else {a} + WalkReads(m, va, Masked(e, PAGE_SIZE), level - 1)
  }

  /** The page a present leaf maps. */
  lemma MaskedPage(e: U64, level: nat)
    requires level < 3
    ensures Masked(e, PageSize(level)) % PageSize(level) == 0
    ensures (Masked(e, PageSize(level)) + PageSize(level)) % PageSize(level) == 0
    ensures Masked(e, PageSize(level)) + PageSize(level) <= TWO_63
  {
    hide PageSize;
    var size, q := PageSize(level), e % TWO_63 / PageSize(level);
    Quotients(q, 0, level);
    Quotients(q + 1, 0, level);
    assert (q + 1) * size == q * size + size;
    LastPage(e % TWO_63, level);
  }

  lemma LastPage(x: nat, level: nat)
    requires level < 3 && x < TWO_63
    ensures x / PageSize(level) * PageSize(level) + PageSize(level) <= TWO_63
  {
    if level == 0 {
      assert x / 0x1000 < 0x8_0000_0000_0000;
    } else if level == 1 {
      assert x / 0x20_0000 < 0x400_0000_0000;
    } else {
      assert x / 0x4000_0000 < 0x2_0000_0000;
    }
  }

  /** A low-half hit leaves exactly the rest of its page; above 2^63 the kept bit
      63 puts the returned address 2^63 too high and beyond the page end. */
  lemma {:induction false} HitShape(m: seq<byte>, va: U64, table: nat, level: nat) returns (h: nat)
    requires level <= 3 && WalkTable(m, va, table, level).Hit?
    ensures h <= level && h < 3
    ensures var w := WalkTable(m, va, table, level);
            && w.end % PageSize(h) == 0
            && if va < TWO_63 then w.end - w.pa == PageSize(h) - va % PageSize(h)
               else w.pa - TWO_63 < w.end <= TWO_63 <= w.pa
    decreases level
  {
    var e := Load64(m, table + 8 * Index(va, level));
    if IsLeaf(e, level) {
      h := level;
      MaskedPage(e, level);
      hide Masked, Has, Load64;
      assert va % PageSize(level) < PageSize(level);
    } else {
      hide Masked, Has, Load64;
      h := HitShape(m, va, Masked(e, PAGE_SIZE), level - 1);
    }
  }

  /** Addresses of one page translate to consecutive physical addresses. */
  lemma {:induction false} SamePage(m: seq<byte>, va: U64, k: nat, table: nat, level: nat)
    requires level <= 3 && va + k < TWO_63
    requires var w := WalkTable(m, va, table, level); w.Hit? && k < w.end - w.pa
    ensures (va + k) / PageSize(level) == va / PageSize(level)
    ensures var w := WalkTable(m, va, table, level);
            WalkTable(m, va + k, table, level) == Hit(w.pa + k, w.end)
    ensures WalkReads(m, va + k, table, level) == WalkReads(m, va, table, level)
    decreases level
  {
    hide Masked, Has, Load64;
    var e := Load64(m, table + 8 * Index(va, level));
    if IsLeaf(e, level) {
      InPage(va, k, level);
    } else {
      SamePage(m, va, k, Masked(e, PAGE_SIZE), level - 1);
      Nested(va, level);
      Nested(va + k, level);
    }
  }

  lemma InPage(va: U64, k: nat, level: nat)
    requires level <= 3 && va + k < TWO_63 && va % PageSize(level) + k < PageSize(level)
    ensures (va + k) / PageSize(level) == va / PageSize(level)
    ensures (va + k) % PageSize(level) == va % PageSize(level) + k
  {
    var size := PageSize(level);
    assert va + k == va / size * size + (va % size + k);
    Quotients(va / size, va % size + k, level);
  }

  lemma Quotients(q: nat, r: nat, level: nat)
    requires level <= 3 && r < PageSize(level)
    ensures (q * PageSize(level) + r) / PageSize(level) == q && (q * PageSize(level) + r) % PageSize(level) == r
  {
    if level == 0 {
    } else if level == 1 {
    } else if level == 2 {
    } else {
    }
  }

  lemma Nested(va: U64, level: nat)
    requires 1 <= level <= 3
    ensures va / PageSize(level) == va / PageSize(level - 1) / 512
  {
    if level == 1 {
    } else if level == 2 {
    } else {
    }
  }

  /** A walk depends only on the entries it reads. */
  lemma {:induction false} WalkFramed(m: seq<byte>, n: seq<byte>, va: U64, table: nat, level: nat)
    requires level <= 3
    requires forall a :: a in WalkReads(m, va, table, level) ==> Load64(n, a) == Load64(m, a)
    ensures WalkTable(n, va, table, level) == WalkTable(m, va, table, level)
    ensures WalkReads(n, va, table, level) == WalkReads(m, va, table, level)
    decreases level
  {
    hide Masked, Has, Load64;
    var a := table + 8 * Index(va, level);
    var e := Load64(m, a);
    assert a in WalkReads(m, va, table, level);
    if Has(e, PG_PRESENT) && !IsLeaf(e, level) {
      WalkFramed(m, n, va, Masked(e, PAGE_SIZE), level - 1);
    }
  }

  /** Bit 63 changes no index: an upper-half address finds the entries of its low-half
      twin, and the kept bit puts the result 2^63 behind the twin's. */
  lemma {:induction false} UpperTwin(m: seq<byte>, va: U64, table: nat, level: nat)
    requires level <= 3 && va < TWO_63
    ensures WalkTable(m, va + TWO_63, table, level)
            == match WalkTable(m, va, table, level) case Miss => Miss case Hit(pa, end) => Hit(pa + TWO_63, end)
    decreases level
  {
    hide Masked, Has, Load64;
    TwinIndex(va, level);
    var e := Load64(m, table + 8 * Index(va, level));
    if Has(e, PG_PRESENT) && !IsLeaf(e, level) {
      UpperTwin(m, va, Masked(e, PAGE_SIZE), level - 1);
    }
  }

  /** 2^63 in pages of a level. */
  function TopPages(level: nat): (k: nat)
    requires level <= 3
    ensures k % 512 == 0 && k * PageSize(level) == TWO_63
  {
    if level == 0 then 0x8_0000_0000_0000 else if level == 1 then 0x400_0000_0000
    else if level == 2 then 0x2_0000_0000 else 0x100_0000
  }

  lemma TwinIndex(va: U64, level: nat)
    requires level <= 3 && va < TWO_63
    ensures Index(va + TWO_63, level) == Index(va, level) && Offset(va + TWO_63, level) == Offset(va, level) + TWO_63
  {
    hide PageSize, TopPages;
    var size, q, r, k := PageSize(level), va / PageSize(level), va % PageSize(level), TopPages(level);
    assert va + TWO_63 == (q + k) * size + r;
    Quotients(q + k, r, level);
  }

  // ------------------------------------------------------------ the format

  /** A present entry whose address bits (12 to 62, or fewer for a large page) are `base`. */
  predicate Maps(e: U64, size: U64, base: nat)
    requires size > 0
  {
    e % 2 == 1 && e % TWO_63 - e % TWO_63 % size == base
  }

  /** Bit 7, which makes an entry above the last level a leaf. */
  predicate Large(e: U64) {
    e / 128 % 2 == 1
  }

  /** The address that selects these table entries and this offset behind them. */
  function AddressOf(i3: nat, i2: nat, i1: nat, i0: nat, off: nat): nat {
    i3 * 0x80_0000_0000 + i2 * 0x4000_0000 + i1 * 0x20_0000 + i0 * 0x1000 + off
  }

  lemma AddressDigits(i3: nat, i2: nat, i1: nat, i0: nat, off: nat)
    requires i3 < 512 && i2 < 512 && i1 < 512 && i0 < 512 && off < 0x1000
    ensures var va := AddressOf(i3, i2, i1, i0, off);
            && va < TWO_63 && va < TWO_64
            && Index(va, 3) == i3 && Index(va, 2) == i2 && Index(va, 1) == i1 && Index(va, 0) == i0
            && Offset(va, 2) == i1 * 0x20_0000 + i0 * 0x1000 + off
            && Offset(va, 1) == i0 * 0x1000 + off && Offset(va, 0) == off
  {
    var va, q2, q1 := AddressOf(i3, i2, i1, i0, off), i3 * 512 + i2, (i3 * 512 + i2) * 512 + i1;
    Quotients(q1 * 512 + i0, off, 0);
    Quotients(q1, i0 * 0x1000 + off, 1);
    Quotients(q2, i1 * 0x20_0000 + i0 * 0x1000 + off, 2);
    Quotients(i3, i2 * 0x4000_0000 + i1 * 0x20_0000 + i0 * 0x1000 + off, 3);
    assert va == (q1 * 512 + i0) * PageSize(0) + off;
    assert va == q1 * PageSize(1) + (i0 * 0x1000 + off);
    assert va == q2 * PageSize(2) + (i1 * 0x20_0000 + i0 * 0x1000 + off);
    assert va == i3 * PageSize(3) + (i2 * 0x4000_0000 + i1 * 0x20_0000 + i0 * 0x1000 + off);
    hide PageSize;
    LastDigit(q1, i0);
    LastDigit(q2, i1);
    LastDigit(i3, i2);
    LastDigit(0, i3);
  }

  lemma LastDigit(q: nat, i: nat)
    requires i < 512
    ensures (q * 512 + i) % 512 == i
  {}

  lemma MaskedMaps(e: U64, size: U64, base: nat)
    requires size > 0 && Maps(e, size, base)
    ensures Masked(e, size) == base && Has(e, PG_PRESENT)
  {
    var x := e % TWO_63;
    assert x == x / size * size + x % size;
  }

  /** Four present table entries, none large above the last: the 4 KiB page that the last
      one maps (section 4.5 of the Intel SDM, Volume 3A). */
  lemma SmallPage(m: seq<byte>, i3: nat, i2: nat, i1: nat, i0: nat, off: nat, t2: nat, t1: nat, t0: nat, page: nat)
    requires i3 < 512 && i2 < 512 && i1 < 512 && i0 < 512 && off < 0x1000
    requires Maps(Load64(m, 0x10000 + 8 * i3), 0x1000, t2)
    requires Maps(Load64(m, t2 + 8 * i2), 0x1000, t1) && !Large(Load64(m, t2 + 8 * i2))
    requires Maps(Load64(m, t1 + 8 * i1), 0x1000, t0) && !Large(Load64(m, t1 + 8 * i1))
    requires Maps(Load64(m, t0 + 8 * i0), 0x1000, page)
    ensures AddressOf(i3, i2, i1, i0, off) < TWO_64
    ensures VirtToPhys(m, AddressOf(i3, i2, i1, i0, off)) == (page + off, page + 0x1000)
  {
    hide *;
    var va := AddressOf(i3, i2, i1, i0, off);
    AddressDigits(i3, i2, i1, i0, off);
    Through(m, va, 0x10000, 3, t2);
    Through(m, va, t2, 2, t1);
    Through(m, va, t1, 1, t0);
    SmallLeaf(m, va, t0, page);
    Translated(m, va, page + off, page + 0x1000);
  }

  /** A large entry of the page directory maps 2 MiB. */
  lemma LargePage(m: seq<byte>, i3: nat, i2: nat, i1: nat, i0: nat, off: nat, t2: nat, t1: nat, page: nat)
    requires i3 < 512 && i2 < 512 && i1 < 512 && i0 < 512 && off < 0x1000
    requires Maps(Load64(m, 0x10000 + 8 * i3), 0x1000, t2)
    requires Maps(Load64(m, t2 + 8 * i2), 0x1000, t1) && !Large(Load64(m, t2 + 8 * i2))
    requires Maps(Load64(m, t1 + 8 * i1), 0x20_0000, page) && Large(Load64(m, t1 + 8 * i1))
    ensures AddressOf(i3, i2, i1, i0, off) < TWO_64
    ensures VirtToPhys(m, AddressOf(i3, i2, i1, i0, off)) == (page + i0 * 0x1000 + off, page + 0x20_0000)
  {
    hide *;
    var va := AddressOf(i3, i2, i1, i0, off);
    AddressDigits(i3, i2, i1, i0, off);
    Through(m, va, 0x10000, 3, t2);
    Through(m, va, t2, 2, t1);
    LargeLeaf(m, va, t1, page);
    Translated(m, va, page + (i0 * 0x1000 + off), page + 0x20_0000);
  }

  /** A large entry one level higher maps 1 GiB. */
  lemma HugePage(m: seq<byte>, i3: nat, i2: nat, i1: nat, i0: nat, off: nat, t2: nat, page: nat)
    requires i3 < 512 && i2 < 512 && i1 < 512 && i0 < 512 && off < 0x1000
    requires Maps(Load64(m, 0x10000 + 8 * i3), 0x1000, t2)
    requires Maps(Load64(m, t2 + 8 * i2), 0x4000_0000, page) && Large(Load64(m, t2 + 8 * i2))
    ensures AddressOf(i3, i2, i1, i0, off) < TWO_64
    ensures VirtToPhys(m, AddressOf(i3, i2, i1, i0, off))
            == (page + i1 * 0x20_0000 + i0 * 0x1000 + off, page + 0x4000_0000)
  {
    hide *;
    var va := AddressOf(i3, i2, i1, i0, off);
    AddressDigits(i3, i2, i1, i0, off);
    Through(m, va, 0x10000, 3, t2);
    HugeLeaf(m, va, t2, page);
    Translated(m, va, page + (i1 * 0x20_0000 + i0 * 0x1000 + off), page + 0x4000_0000);
  }

  /** An absent entry at any level: the address is not mapped. */
  lemma AbsentEntry(m: seq<byte>, i3: nat, i2: nat, i1: nat, i0: nat, off: nat, t2: nat, t1: nat, t0: nat)
    requires i3 < 512 && i2 < 512 && i1 < 512 && i0 < 512 && off < 0x1000
    requires
      || Load64(m, 0x10000 + 8 * i3) % 2 == 0
      || (Maps(Load64(m, 0x10000 + 8 * i3), 0x1000, t2)
          && (|| Load64(m, t2 + 8 * i2) % 2 == 0
              || (Maps(Load64(m, t2 + 8 * i2), 0x1000, t1) && !Large(Load64(m, t2 + 8 * i2))
                  && (|| Load64(m, t1 + 8 * i1) % 2 == 0
                      || (Maps(Load64(m, t1 + 8 * i1), 0x1000, t0) && !Large(Load64(m, t1 + 8 * i1))
                          && Load64(m, t0 + 8 * i0) % 2 == 0)))))
    ensures AddressOf(i3, i2, i1, i0, off) < TWO_64
    ensures VirtToPhys(m, AddressOf(i3, i2, i1, i0, off)) == (0, 0)
  {
    hide *;
    var va := AddressOf(i3, i2, i1, i0, off);
    AddressDigits(i3, i2, i1, i0, off);
    if Load64(m, 0x10000 + 8 * i3) % 2 == 0 {
      Absent(m, va, 0x10000, 3);
    } else {
      Through(m, va, 0x10000, 3, t2);
      if Load64(m, t2 + 8 * i2) % 2 == 0 {
        Absent(m, va, t2, 2);
      } else {
        Through(m, va, t2, 2, t1);
        if Load64(m, t1 + 8 * i1) % 2 == 0 {
          Absent(m, va, t1, 1);
        } else {
          Through(m, va, t1, 1, t0);
          Absent(m, va, t0, 0);
        }
      }
    }
    Untranslated(m, va);
  }

  lemma Translated(m: seq<byte>, va: U64, pa: nat, end: nat)
    requires WalkTable(m, va, 0x10000, 3) == Hit(pa, end)
    ensures VirtToPhys(m, va) == (pa, end)
  {
    hide WalkTable;
  }

  lemma Untranslated(m: seq<byte>, va: U64)
    requires WalkTable(m, va, 0x10000, 3) == Miss
    ensures VirtToPhys(m, va) == (0, 0)
  {
    hide WalkTable;
  }

  lemma Absent(m: seq<byte>, va: U64, table: nat, level: nat)
    requires level <= 3 && Load64(m, table + 8 * Index(va, level)) % 2 == 0
    ensures WalkTable(m, va, table, level) == Miss
  {
    hide Load64, Masked, Index;
  }

  lemma SmallLeaf(m: seq<byte>, va: U64, table: nat, page: nat)
    requires Maps(Load64(m, table + 8 * Index(va, 0)), 0x1000, page)
    ensures WalkTable(m, va, table, 0) == Hit(page + Offset(va, 0), page + 0x1000)
  {
    LeafAt(m, va, table, 0, page);
  }

  lemma LargeLeaf(m: seq<byte>, va: U64, table: nat, page: nat)
    requires Maps(Load64(m, table + 8 * Index(va, 1)), 0x20_0000, page) && Large(Load64(m, table + 8 * Index(va, 1)))
    ensures WalkTable(m, va, table, 1) == Hit(page + Offset(va, 1), page + 0x20_0000)
  {
    LeafAt(m, va, table, 1, page);
  }

  lemma HugeLeaf(m: seq<byte>, va: U64, table: nat, page: nat)
    requires Maps(Load64(m, table + 8 * Index(va, 2)), 0x4000_0000, page) && Large(Load64(m, table + 8 * Index(va, 2)))
    ensures WalkTable(m, va, table, 2) == Hit(page + Offset(va, 2), page + 0x4000_0000)
  {
    LeafAt(m, va, table, 2, page);
  }

  lemma Through(m: seq<byte>, va: U64, table: nat, level: nat, next: nat)
    requires 1 <= level <= 3 && Maps(Load64(m, table + 8 * Index(va, level)), 0x1000, next)
    requires level < 3 ==> !Large(Load64(m, table + 8 * Index(va, level)))
    ensures WalkTable(m, va, table, level) == WalkTable(m, va, next, level - 1)
  {
    MaskedMaps(Load64(m, table + 8 * Index(va, level)), 0x1000, next);
    hide Load64, Masked, Index, Offset;
  }

  lemma LeafAt(m: seq<byte>, va: U64, table: nat, level: nat, page: nat)
    requires level < 3 && Maps(Load64(m, table + 8 * Index(va, level)), PageSize(level), page)
    requires level > 0 ==> Large(Load64(m, table + 8 * Index(va, level)))
    ensures WalkTable(m, va, table, level) == Hit(page + Offset(va, level), page + PageSize(level))
  {
    MaskedMaps(Load64(m, table + 8 * Index(va, level)), PageSize(level), page);
    hide Load64, Masked, Index, Offset;
  }
}
