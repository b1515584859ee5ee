/** The walker and the scanner look at the same memory: bytes for the one,
    decoded words for the other. */
module Coverage {
  import opened Pte
  import opened Bytes
  import opened Walker
  import BootTables
  import opened Scan
  import opened FrozenScan
  import opened SelfMap
  import opened LiveMigration

  function WordsOf(m: seq<byte>): (w: Memory)
    ensures |w| == |m| / 8
    ensures forall i: nat :: At(w, i) == Decode(Load64(m, 8 * i))
  {
    var w := seq(|m| / 8, i requires 0 <= i < |m| / 8 => Decode(Load64(m, 8 * i)));
    assert Decode(0) == ABSENT;
    w
  }

  /** The level at which a walk ends. */
  function HitLevel(m: seq<byte>, va: U64, table: nat, level: nat): nat
    requires level <= 3
    decreases level
  {
    var e := Load64(m, table + 8 * Index(va, level));
    if !Has(e, PG_PRESENT) || IsLeaf(e, level) then level
    else HitLevel(m, va, Masked(e, PAGE_SIZE), level - 1)
  }

  lemma {:induction false} EntryIn(m: Memory, level: nat, table: nat, i: nat, k: nat, v: Visit)
    requires level > 0 && i <= k < ENTRIES && v in EntryVisits(m, level, ENTRIES * table + k)
    ensures v in Visits(m, level, table, i)
    decreases k - i
  {
    hide EntryVisits;
    if i < k {
      EntryIn(m, level, table, i + 1, k, v);
    }
  }

  /** A leaf entry is visited when its table is scanned. */
  lemma LeafIn(w: Memory, level: nat, table: nat, k: nat)
    requires k < ENTRIES && Entry(w, table, k).present && (level == 1 || (level == 2 && Entry(w, table, k).pse))
    ensures Visit(ENTRIES * table + k, level == 2) in Visits(w, level, table, 0)
  {
    hide Visits;
    assert Visit(ENTRIES * table + k, level == 2) in EntryVisits(w, level, ENTRIES * table + k);
    EntryIn(w, level, table, 0, k, Visit(ENTRIES * table + k, level == 2));
  }

  /** So are the leaves of the table an entry points to. */
  lemma Descend(w: Memory, level: nat, table: nat, k: nat, v: Visit)
    requires k < ENTRIES && level >= 2 && Entry(w, table, k).present && !(level == 2 && Entry(w, table, k).pse)
    requires v in Visits(w, level - 1, Entry(w, table, k).frame, 0)
    ensures v in Visits(w, level, table, 0)
  {
    hide Visits;
    assert EntryVisits(w, level, ENTRIES * table + k) == Visits(w, level - 1, Entry(w, table, k).frame, 0);
    EntryIn(w, level, table, 0, k, v);
  }

  /** The entry a walk reads and the word the scan reads in its place. */
  lemma SameEntry(m: seq<byte>, frame: nat, k: nat)
    requires k < ENTRIES
    ensures var e := Load64(m, frame * PAGE_SIZE + 8 * k);
            && Entry(WordsOf(m), frame, k) == Decode(e)
            && Decode(e).present == Has(e, PG_PRESENT) && Decode(e).pse == Has(e, PG_PSE)
            && Masked(e, PAGE_SIZE) == Decode(e).frame * PAGE_SIZE
            && Masked(e, PAGE_2M_SIZE) == Decode(e).frame / 512 * 512 * PAGE_SIZE
  {
    assert 8 * (ENTRIES * frame + k) == frame * PAGE_SIZE + 8 * k;
    MaskedDecoded(Load64(m, frame * PAGE_SIZE + 8 * k));
  }

  /** Whatever address virt_to_phys resolves through a 4 KiB or 2 MiB page, the
      scan visits a leaf whose page contains the physical address. */
  lemma {:induction false} WalkIsVisited(m: seq<byte>, va: U64, frame: nat, level: nat) returns (v: Visit)
    requires level <= 3 && va < TWO_63
    requires WalkTable(m, va, frame * PAGE_SIZE, level).Hit?
    requires HitLevel(m, va, frame * PAGE_SIZE, level) != 2
    ensures v in Visits(WordsOf(m), level + 1, frame, 0)
    ensures Covers(WordsOf(m), v, WalkTable(m, va, frame * PAGE_SIZE, level).pa / 8)
    decreases level
  {
    hide Load64, Masked, Has, Decode, WordsOf, Visits;
    var w, k := WordsOf(m), Index(va, level);
    SameEntry(m, frame, k);
    var e := Load64(m, frame * PAGE_SIZE + 8 * k);
    if IsLeaf(e, level) {
      v := Visit(ENTRIES * frame + k, level == 1);
      LeafIn(w, level + 1, frame, k);
      LeafCovers(w, v, va, level);
    } else {
      v := WalkIsVisited(m, va, Decode(e).frame, level - 1);
      Descend(w, level + 1, frame, k, v);
    }
  }

  lemma LeafCovers(w: Memory, v: Visit, va: U64, level: nat)
    requires level <= 1 && v.big == (level == 1) && va < TWO_63
    ensures var f := At(w, v.loc).frame;
            Covers(w, v, ((if v.big then f / 512 * 512 else f) * PAGE_SIZE + Offset(va, level)) / 8)
  {
    var f := At(w, v.loc).frame;
    var base := if v.big then f / 512 * 512 else f;
    assert Offset(va, level) < PageSize(level);
    assert (base * PAGE_SIZE + Offset(va, level)) / 8 == base * 512 + Offset(va, level) / 8;
  }

  // ------------------------------------------------------------ the boot tables

  const BOOT_LEVELS := map[17 := 3, 18 := 2]

  /** The decoded boot entries. */
  lemma BootSlot(m: seq<byte>, i: nat)
    requires BootTables.Booted(m) && i < ENTRIES
    ensures var e := Entry(WordsOf(m), 16, i);
            e.present == (i in {0, 511}) && !e.pse && (i == 0 ==> e.frame == 17) && (i == 511 ==> e.frame == 16)
    ensures var e := Entry(WordsOf(m), 17, i);
            e.present == (i == 0) && !e.pse && (i == 0 ==> e.frame == 18)
    ensures Entry(WordsOf(m), 18, i).present && Entry(WordsOf(m), 18, i).pse
  {
    assert BootTables.Entry(m, BOOT_PML4, i) == BootTables.Pml4Entry(i);
    assert BootTables.Entry(m, BootTables.BOOT_PDPTE, i) == BootTables.PdpteEntry(i);
    assert BootTables.Entry(m, BootTables.BOOT_PDE, i) == BootTables.PdeEntry(i);
    SameEntry(m, 16, i);
    SameEntry(m, 17, i);
    SameEntry(m, 18, i);
    BootTables.PdeBits(i);
    BootFields(i);
    hide Load64, Decode, WordsOf;
  }

  lemma BootFields(i: nat)
    requires i < ENTRIES
    ensures var e := Decode(BootTables.Pml4Entry(i));
            e.present == (i in {0, 511}) && !e.pse && (i == 0 ==> e.frame == 17) && (i == 511 ==> e.frame == 16)
    ensures var e := Decode(BootTables.PdpteEntry(i));
            e.present == (i == 0) && !e.pse && (i == 0 ==> e.frame == 18)
  {
    TableFields(17);
    TableFields(16);
    TableFields(18);
    hide Decode;
    assert Decode(0) == ABSENT by { NoFields(); }
  }

  lemma NoFields()
    ensures Decode(0) == ABSENT
  {}

  /** An entry that points to the table in a frame. */
  lemma TableFields(frame: nat)
    requires frame < 512
    ensures var e := Decode(frame * PAGE_SIZE + BootTables.TABLE_FLAGS); e.present && !e.pse && e.frame == frame
  {
    var e := frame * PAGE_SIZE + BootTables.TABLE_FLAGS;
    assert e / 256 == frame * 16 && e / 128 == frame * 32;
  }

  /** The boot tables map themselves; frozen dumps of them are complete. */
  lemma BootLayered(m: seq<byte>)
    requires BootTables.Booted(m)
    ensures Layered(WordsOf(m), BOOT_LEVELS) && WidestFirst(AllVisits(WordsOf(m)))
  {
    hide WordsOf, Entry;
    BootSlot(m, 511);
    forall i: nat | i < ENTRIES
      ensures i < 511 ==> Child(BOOT_LEVELS, Entry(WordsOf(m), 16, i), 3)
      ensures Child(BOOT_LEVELS, Entry(WordsOf(m), 17, i), 2)
      ensures Entry(WordsOf(m), 18, i).pse
    {
      BootSlot(m, i);
    }
    SelfMapWidestFirst(WordsOf(m), BOOT_LEVELS);
  }

  lemma PdeFrame(m: seq<byte>, k: nat)
    requires BootTables.Booted(m) && k < ENTRIES
    ensures Entry(WordsOf(m), 18, k).frame == 512 * k
  {
    hide WordsOf, Decode, Load64;
    assert BootTables.Entry(m, BootTables.BOOT_PDE, k) == BootTables.PdeEntry(k);
    SameEntry(m, 18, k);
    PdeDecoded(k);
  }

  lemma PdeDecoded(k: nat)
    requires k < ENTRIES
    ensures Decode(BootTables.PdeEntry(k)).frame == 512 * k
  {
    assert BootTables.PdeEntry(k) / 256 / 16 == 512 * k;
  }

  /** Page directory entry k is visited as 2 MiB leaf through slot 0 and as 4 KiB leaf
      through slot 511. */
  lemma BootAliases(m: seq<byte>, k: nat)
    requires BootTables.Booted(m) && k < ENTRIES
    ensures Visit(ENTRIES * 18 + k, true) in AllVisits(WordsOf(m))
    ensures Visit(ENTRIES * 18 + k, false) in AllVisits(WordsOf(m))
    ensures At(WordsOf(m), ENTRIES * 18 + k).frame == 512 * k
  {
    hide WordsOf, Visits, Decode, BootTables.Booted;
    var w, big, small := WordsOf(m), Visit(ENTRIES * 18 + k, true), Visit(ENTRIES * 18 + k, false);
    BootSlot(m, k);
    PdeFrame(m, k);
    BootSlot(m, 0);
    BootSlot(m, 511);
    LeafIn(w, 2, 18, k);
    Descend(w, 3, 17, 0, big);
    Descend(w, 4, PML4, 0, big);
    LeafIn(w, 1, 18, k);
    Descend(w, 2, 17, 0, small);
    Descend(w, 3, 16, 0, small);
    Descend(w, 4, PML4, 511, small);
  }

  /** So a scan of the boot tables does not visit entries in one size. */
  lemma BootTwoSizes(m: seq<byte>)
    requires BootTables.Booted(m)
    ensures !OneSize(AllVisits(WordsOf(m)))
  {
    hide WordsOf, Visits;
    BootAliases(m, 0);
    var vs := AllVisits(WordsOf(m));
    var i :| 0 <= i < |vs| && vs[i] == Visit(ENTRIES * 18, true);
    var j :| 0 <= j < |vs| && vs[j] == Visit(ENTRIES * 18, false);
    assert vs[i].loc == vs[j].loc && vs[i].big != vs[j].big;
  }
}
