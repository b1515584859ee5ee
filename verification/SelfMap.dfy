/** Page tables that map themselves through PML4 slot 511 (uhyve-x86_64.c:369):
    the tables of the first 511 slots form a tree, slot 511 points back at the
    PML4. Such tables are visited again, as 4 KiB pages, by the end of a scan. */
module SelfMap {
  import opened Pte
  import opened Scan
  import opened FrozenScan

  /** `lvl` gives the tables below the first 511 slots their level: 3 for page
      directory pointer tables, 2 for page directories, 1 for page tables. No
      table has two levels and there are no 1 GiB pages. */
  ghost predicate Layered(m: Memory, lvl: map<nat, nat>) {
    && PML4 !in lvl
    && (forall i: nat :: i < 511 ==> Child(lvl, Entry(m, PML4, i), 3))
    && (Entry(m, PML4, 511).present ==> Entry(m, PML4, 511).frame == PML4 && !Entry(m, PML4, 511).pse)
    && (forall f, i: nat :: f in lvl && lvl[f] == 3 && i < ENTRIES ==> Child(lvl, Entry(m, f, i), 2))
    && (forall f, i: nat :: f in lvl && lvl[f] == 2 && i < ENTRIES && !Entry(m, f, i).pse ==>
          Child(lvl, Entry(m, f, i), 1))
  }

  function Entry(m: Memory, table: nat, i: nat): Word {
    At(m, ENTRIES * table + i)
  }

  ghost predicate Child(lvl: map<nat, nat>, e: Word, level: nat) {
    e.present ==> !e.pse && e.frame in lvl && lvl[e.frame] == level
  }

  /** A leaf found below the first 511 slots lies in a table of its own level. */
  ghost predicate InTree(lvl: map<nat, nat>, v: Visit) {
    v.loc / ENTRIES in lvl && lvl[v.loc / ENTRIES] == if v.big then 2 else 1
  }

  /** A leaf of a table comes from one of its entries. */
  lemma {:induction false} FromEntry(m: Memory, level: nat, table: nat, i: nat, v: Visit) returns (k: nat)
    requires v in Visits(m, level, table, i)
    ensures level > 0 && i <= k < ENTRIES && Entry(m, table, k).present
    ensures if level == 1 || (level == 2 && Entry(m, table, k).pse) then v == Visit(ENTRIES * table + k, level == 2)
            else v in Visits(m, level - 1, Entry(m, table, k).frame, 0)
    decreases ENTRIES + 1 - i
  {
    if v in EntryVisits(m, level, ENTRIES * table + i) {
      k := i;
    } else {
      k := FromEntry(m, level, table, i + 1, v);
    }
  }

  lemma {:induction false} TreeLeaf(m: Memory, lvl: map<nat, nat>, level: nat, table: nat, v: Visit)
    requires Layered(m, lvl) && 1 <= level <= 3 && table in lvl && lvl[table] == level
    requires v in Visits(m, level, table, 0)
    ensures InTree(lvl, v)
    decreases level
  {
    hide Visits, EntryVisits;
    var k := FromEntry(m, level, table, 0, v);
    var e := Entry(m, table, k);
    if level == 1 || (level == 2 && e.pse) {
      assert (ENTRIES * table + k) / ENTRIES == table;
    } else {
      assert Child(lvl, e, level - 1);
      TreeLeaf(m, lvl, level - 1, e.frame, v);
    }
  }

  /** Read one level too high, as slot 511 makes the scan do, tables hold only
      4 KiB leaves. */
  lemma {:induction false} ShiftedLeaf(m: Memory, lvl: map<nat, nat>, level: nat, table: nat, v: Visit)
    requires Layered(m, lvl) && 1 <= level <= 3
    requires level == 1 || table == PML4 || (level == 2 && table in lvl && lvl[table] == 3)
    requires v in Visits(m, level, table, 0)
    ensures !v.big
    decreases level
  {
    hide Visits, EntryVisits;
    var k := FromEntry(m, level, table, 0, v);
    var e := Entry(m, table, k);
    if level > 1 {
      if table == PML4 && k < 511 {
        assert Child(lvl, e, 3);
      } else if table != PML4 {
        assert Child(lvl, e, level);
      }
      ShiftedLeaf(m, lvl, level - 1, e.frame, v);
    }
  }

  /** The leaves below one PML4 slot. */
  lemma SlotLeaves(m: Memory, lvl: map<nat, nat>, i: nat, v: Visit)
    requires Layered(m, lvl) && i < ENTRIES && v in EntryVisits(m, 4, ENTRIES * PML4 + i)
    ensures if i < 511 then InTree(lvl, v) else !v.big
  {
    hide Visits, Layered;
    var e := Entry(m, PML4, i);
    assert e.present && v in Visits(m, 3, e.frame, 0);
    hide EntryVisits;
    SlotChild(m, lvl, i);
    if i < 511 {
      TreeLeaf(m, lvl, 3, e.frame, v);
    } else {
      ShiftedLeaf(m, lvl, 3, PML4, v);
    }
  }

  lemma SlotChild(m: Memory, lvl: map<nat, nat>, i: nat)
    requires Layered(m, lvl) && i < ENTRIES && Entry(m, PML4, i).present
    ensures if i < 511 then Child(lvl, Entry(m, PML4, i), 3) else Entry(m, PML4, i).frame == PML4
  {
  }

  /** Tree leaves first, then only 4 KiB leaves. */
  ghost predicate SplitsAt(lvl: map<nat, nat>, vs: seq<Visit>, k: nat) {
    && k <= |vs|
    && (forall x :: 0 <= x < k ==> InTree(lvl, vs[x]))
    && (forall x :: k <= x < |vs| ==> !vs[x].big)
  }

  lemma {:induction false} Pml4Split(m: Memory, lvl: map<nat, nat>, i: nat) returns (k: nat)
    requires Layered(m, lvl) && i <= 511
    ensures SplitsAt(lvl, Visits(m, 4, PML4, i), k)
    decreases 511 - i
  {
    hide EntryVisits, Layered, InTree;
    var here, rest := EntryVisits(m, 4, ENTRIES * PML4 + i), Visits(m, 4, PML4, i + 1);
    var vs := here + rest;
    assert Visits(m, 4, PML4, i) == vs;
    assert i == 511 ==> rest == [];
    hide Visits;
    forall x | 0 <= x < |here| ensures if i < 511 then InTree(lvl, vs[x]) else !vs[x].big {
      assert vs[x] in here;
      SlotLeaves(m, lvl, i, vs[x]);
    }
    if i == 511 {
      k := 0;
    } else {
      var j := Pml4Split(m, lvl, i + 1);
      k := |here| + j;
      forall x | |here| <= x < |vs| ensures vs[x] == rest[x - |here|] {}
    }
  }

  /** A scan of self-mapped tables takes every entry as a 2 MiB leaf before it
      takes it as a 4 KiB leaf: frozen dumps of such tables are complete. */
  lemma SelfMapWidestFirst(m: Memory, lvl: map<nat, nat>)
    requires Layered(m, lvl)
    ensures WidestFirst(AllVisits(m))
  {
    var k := Pml4Split(m, lvl, 0);
  }
}
