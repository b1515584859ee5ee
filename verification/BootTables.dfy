/** setup_system_page_tables (uhyve-x86_64.c:352-377) and what virt_to_phys
    returns on the tables it builds. */
module BootTables {
  import opened Pte
  import opened Bytes
  import opened Walker

  const BOOT_PDPTE: nat := 0x11000
  const BOOT_PDE: nat := 0x12000
  const BOOT_END: nat := 0x13000
  const TABLE_FLAGS: U64 := 0x3
  const PAGE_FLAGS: U64 := 0x83

  function Entry(m: seq<byte>, table: nat, i: nat): U64 {
    Load64(m, table + 8 * i)
  }

  function Pml4Entry(i: nat): U64 {
    if i == 0 then BOOT_PDPTE + TABLE_FLAGS else if i == 511 then BOOT_PML4 + TABLE_FLAGS else 0
  }

  function PdpteEntry(i: nat): U64 {
    if i == 0 then BOOT_PDE + TABLE_FLAGS else 0
  }

  function PdeEntry(i: nat): U64
    requires i < 512
  {
    i * PAGE_2M_SIZE + PAGE_FLAGS
  }

  /** One 2 MiB-page PDE table, reached through slot 0, and the self reference. */
  ghost predicate Booted(m: seq<byte>) {
    && |m| >= BOOT_END
    && (forall i :: 0 <= i < 512 ==> Entry(m, BOOT_PML4, i) == Pml4Entry(i))
    && (forall i :: 0 <= i < 512 ==> Entry(m, BOOT_PDPTE, i) == PdpteEntry(i))
    && (forall i :: 0 <= i < 512 ==> Entry(m, BOOT_PDE, i) == PdeEntry(i))
  }

  // ------------------------------------------------------------ construction

  lemma {:induction false} ZeroBytes(b: seq<byte>)
    requires forall k :: 0 <= k < |b| ==> b[k] == 0
    ensures DecodeBytes(b) == 0
  {
    if b != [] {
      ZeroBytes(b[1..]);
    }
  }

  method ClearPage(mem: array<byte>, base: nat)
    requires base + 0x1000 <= mem.Length
    modifies mem
    ensures forall k :: 0 <= k < mem.Length ==> mem[k] == if base <= k < base + 0x1000 then 0 else old(mem[k])
  {
    forall k | base <= k < base + 0x1000 {
      mem[k] := 0;
    }
  }

  method StoreWord(mem: array<byte>, a: nat, v: U64)
    requires a + 8 <= mem.Length
    modifies mem
    ensures mem[..] == Store64(old(mem[..]), a, v)
  {
    var b := Encode(v, 8);
    forall k | 0 <= k < 8 {
      mem[a + k] := b[k];
    }
  }

  /** Writing one entry leaves all other entries of page-aligned tables alone. */
  lemma EntryStored(m: seq<byte>, table: nat, i: nat, v: U64, other: nat, j: nat)
    requires table % 0x1000 == other % 0x1000 == 0 && i < 512 && j < 512
    requires table + 0x1000 <= |m|
    ensures Entry(Store64(m, table + 8 * i, v), other, j)
            == if table == other && i == j then v else Entry(m, other, j)
  {
    LoadStore(m, table + 8 * i, v, other + 8 * j);
    if table != other {
      assert table + 0x1000 <= other || other + 0x1000 <= table;
    }
  }

  /** One table page as a sequence of its entries. */
  function TableAt(m: seq<byte>, table: nat): (t: seq<U64>)
    ensures |t| == 512 && forall i :: 0 <= i < 512 ==> t[i] == Entry(m, table, i)
  {
    seq(512, i requires 0 <= i < 512 => Entry(m, table, i))
  }

  lemma TableStored(m: seq<byte>, table: nat, i: nat, v: U64, other: nat)
    requires table % 0x1000 == other % 0x1000 == 0 && i < 512 && table + 0x1000 <= |m|
    ensures TableAt(Store64(m, table + 8 * i, v), other)
            == if table == other then TableAt(m, other)[i := v] else TableAt(m, other)
  {
    var after, before := TableAt(Store64(m, table + 8 * i, v), other), TableAt(m, other);
    forall j | 0 <= j < 512 ensures after[j] == if table == other && i == j then v else before[j] {
      EntryStored(m, table, i, v, other, j);
    }
    if table == other {
      assert after == before[i := v];
    } else {
      assert after == before;
    }
  }

  lemma TableCleared(m: seq<byte>, table: nat)
    requires table + 0x1000 <= |m| && forall k :: table <= k < table + 0x1000 ==> m[k] == 0
    ensures forall i :: 0 <= i < 512 ==> TableAt(m, table)[i] == 0
  {
    forall i | 0 <= i < 512 ensures TableAt(m, table)[i] == 0 {
      ZeroBytes(m[table + 8 * i..table + 8 * i + 8]);
    }
  }

  /** Everything below and above the three table pages. */
  function Outside(m: seq<byte>): (seq<byte>, seq<byte>)
    requires |m| >= BOOT_END
  {
    (m[..BOOT_PML4], m[BOOT_END..])
  }

  /** The three tables after storing an entry of one of them. */
  lemma BootStored(m: seq<byte>, table: nat, i: nat, v: U64)
    requires |m| >= BOOT_END && i < 512 && table in {BOOT_PML4, BOOT_PDPTE, BOOT_PDE}
    ensures var n := Store64(m, table + 8 * i, v);
            && Outside(n) == Outside(m)
            && (forall t :: t in {BOOT_PML4, BOOT_PDPTE, BOOT_PDE} ==>
                  TableAt(n, t) == if t == table then TableAt(m, t)[i := v] else TableAt(m, t))
  {
    var n := Store64(m, table + 8 * i, v);
    assert n[..BOOT_PML4] == m[..BOOT_PML4] && n[BOOT_END..] == m[BOOT_END..];
    forall t | t in {BOOT_PML4, BOOT_PDPTE, BOOT_PDE}
      ensures TableAt(Store64(m, table + 8 * i, v), t) == if t == table then TableAt(m, t)[i := v] else TableAt(m, t)
    {
      TableStored(m, table, i, v, t);
    }
  }

  method SetupPageTables(mem: array<byte>)
    requires mem.Length >= BOOT_END
    modifies mem
    ensures Booted(mem[..])
    ensures Outside(mem[..]) == Outside(old(mem[..]))
  {
    hide Store64, TableAt, Load64, Entry;
    ClearTables(mem);
    BootStored(mem[..], BOOT_PML4, 0, Pml4Entry(0));
    StoreWord(mem, BOOT_PML4 + 8 * 0, BOOT_PDPTE + TABLE_FLAGS);
    BootStored(mem[..], BOOT_PML4, 511, Pml4Entry(511));
    StoreWord(mem, BOOT_PML4 + 8 * 511, BOOT_PML4 + TABLE_FLAGS);
    BootStored(mem[..], BOOT_PDPTE, 0, PdpteEntry(0));
    StoreWord(mem, BOOT_PDPTE + 8 * 0, BOOT_PDE + TABLE_FLAGS);
    var i, paddr := 0, 0;
    while i < 512
      invariant i <= 512 && paddr == i * PAGE_2M_SIZE
      invariant Outside(mem[..]) == Outside(old(mem[..]))
      invariant forall k :: 0 <= k < 512 ==> TableAt(mem[..], BOOT_PML4)[k] == Pml4Entry(k)
      invariant forall k :: 0 <= k < 512 ==> TableAt(mem[..], BOOT_PDPTE)[k] == PdpteEntry(k)
      invariant forall k :: 0 <= k < i ==> TableAt(mem[..], BOOT_PDE)[k] == PdeEntry(k)
    {
      BootStored(mem[..], BOOT_PDE, i, PdeEntry(i));
      StoreWord(mem, BOOT_PDE + 8 * i, paddr + PAGE_FLAGS);
      i, paddr := i + 1, paddr + PAGE_2M_SIZE;
    }
  }

  method ClearTables(mem: array<byte>)
    requires mem.Length >= BOOT_END
    modifies mem
    ensures Outside(mem[..]) == Outside(old(mem[..]))
    ensures forall t, i :: t in {BOOT_PML4, BOOT_PDPTE, BOOT_PDE} && 0 <= i < 512 ==> TableAt(mem[..], t)[i] == 0
  {
    ClearPage(mem, BOOT_PML4);
    ClearPage(mem, BOOT_PDPTE);
    ClearPage(mem, BOOT_PDE);
    assert mem[..][..BOOT_PML4] == old(mem[..])[..BOOT_PML4] && mem[..][BOOT_END..] == old(mem[..])[BOOT_END..];
    TableCleared(mem[..], BOOT_PML4);
    TableCleared(mem[..], BOOT_PDPTE);
    TableCleared(mem[..], BOOT_PDE);
  }

  // ------------------------------------------------------------ translation

  /** The first gigabyte is mapped to itself in 2 MiB pages, the rest of the
      lower half is unmapped. */
  lemma BootTranslation(m: seq<byte>, va: U64)
    requires Booted(m) && va < TWO_47
    ensures VirtToPhys(m, va) == if va < 0x4000_0000 then (va, (va / PAGE_2M_SIZE + 1) * PAGE_2M_SIZE) else (0, 0)
  {
    hide Load64;
    var i3, i2, i1 := Index(va, 3), Index(va, 2), Index(va, 1);
    assert va < 0x4000_0000 <==> i3 == 0 && i2 == 0;
    assert i3 < 256;
    assert Load64(m, BOOT_PML4 + 8 * i3) == Pml4Entry(i3) by { assert Entry(m, BOOT_PML4, i3) == Pml4Entry(i3); }
    if i3 == 0 {
      assert Load64(m, BOOT_PDPTE + 8 * i2) == PdpteEntry(i2) by { assert Entry(m, BOOT_PDPTE, i2) == PdpteEntry(i2); }
      assert Masked(Pml4Entry(0), PAGE_SIZE) == BOOT_PDPTE;
      if i2 == 0 {
        assert Load64(m, BOOT_PDE + 8 * i1) == PdeEntry(i1) by { assert Entry(m, BOOT_PDE, i1) == PdeEntry(i1); }
        assert Masked(PdpteEntry(0), PAGE_SIZE) == BOOT_PDE;
        PdeBits(i1);
        assert i1 == va / PAGE_2M_SIZE;
        hide Masked, Has;
        assert WalkTable(m, va, BOOT_PDE, 1) == Hit(va, (i1 + 1) * PAGE_2M_SIZE);
      }
    }
  }

  /** Every entry on the way of an address below 1 GiB is present and writable. */
  lemma BootWritable(m: seq<byte>, va: U64)
    requires Booted(m) && va < 0x4000_0000
    ensures Load64(m, 0x10000) % 4 == 3 && Load64(m, 0x11000) % 4 == 3
    ensures Load64(m, 0x12000 + 8 * (va / 0x20_0000)) % 4 == 3
  {
    hide Load64;
    var i := va / 0x20_0000;
    assert Entry(m, BOOT_PML4, 0) == Pml4Entry(0) && Entry(m, BOOT_PDPTE, 0) == PdpteEntry(0);
    assert Entry(m, BOOT_PDE, i) == PdeEntry(i);
  }

  /** The same addresses with bit 63 set are mapped too, but the address returned is
      2^63 too high and beyond the page end returned with it. */
  lemma BootUpperHalf(m: seq<byte>, va: U64)
    requires Booted(m) && va < 0x4000_0000
    ensures VirtToPhys(m, va + TWO_63) == (va + TWO_63, (va / PAGE_2M_SIZE + 1) * PAGE_2M_SIZE)
  {
    BootTranslation(m, va);
    UpperTwin(m, va, BOOT_PML4, 3);
    hide *;
    TwinResult(m, va);
  }

  lemma TwinResult(m: seq<byte>, va: U64)
    requires va < TWO_63 && VirtToPhys(m, va).1 > 0
    requires WalkTable(m, va + TWO_63, BOOT_PML4, 3)
             == match WalkTable(m, va, BOOT_PML4, 3) case Miss => Miss case Hit(pa, end) => Hit(pa + TWO_63, end)
    ensures VirtToPhys(m, va + TWO_63) == (VirtToPhys(m, va).0 + TWO_63, VirtToPhys(m, va).1)
  {
    hide WalkTable;
  }

  lemma PdeBits(i: nat)
    requires i < 512
    ensures Has(PdeEntry(i), PG_PRESENT) && Has(PdeEntry(i), PG_PSE)
    ensures Masked(PdeEntry(i), PageSize(1)) == i * PAGE_2M_SIZE
  {
    var e := PdeEntry(i);
    assert e / 0x80 == i * 0x4000 + 1;
    assert e % TWO_63 == e && e / PAGE_2M_SIZE == i;
  }
}
