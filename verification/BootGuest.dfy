/** The machine uhyve boots, with at least one gigabyte behind the tables of
    setup_system_page_tables: it meets the assumptions of the checkpoint and migration
    theorems, and this is what they say about it. */
module BootGuest {
  import opened Pte
  import opened Bytes
  import opened Scan
  import opened Records
  import opened FrozenScan
  import opened FreeList
  import opened Regions
  import opened SelfMap
  import opened Checkpoints
  import opened LiveMigration
  import opened LiveTheorems
  import opened Coverage

  /** Words of the first gigabyte. */
  const GIB_WORDS: nat := 512 * 512 * 512

  function WordsBelow(n: nat): (r: set<nat>)
    ensures forall w: nat :: w in r <==> w < n
  {
    if n == 0 then {} else WordsBelow(n - 1) + {n - 1}
  }

  /** The booted memory with its whole first gigabyte tracked. */
  ghost function BootConfig(m: seq<byte>, full: bool): Config {
    Config(WordsOf(m), WordsBelow(GIB_WORDS), full)
  }

  /** The tables a scan can meet at a level: the self reference shifts them down. */
  predicate TableLevel(table: nat, level: nat) {
    (table == 16 && level <= 4) || (table == 17 && level <= 3) || (table == 18 && level <= 2)
  }

  predicate InTables(loc: nat) {
    ENTRIES * 16 <= loc < ENTRIES * 19
  }

  /** A boot entry points to a table of the next level, or maps a page inside the
      first gigabyte. */
  lemma BootEntry(m: seq<byte>, table: nat, k: nat)
    requires BootTables.Booted(m) && table in {16, 17, 18} && k < ENTRIES
    ensures var e := Entry(WordsOf(m), table, k);
            && (e.present && table < 18 ==> e.frame in {16, 17, 18} && !e.pse && (e.frame == 16 ==> table == 16))
            && (e.present && table == 17 ==> e.frame == 18)
            && (e.present && table == 16 ==> e.frame < 18)
            && (table == 18 ==> e.pse && e.present && e.frame == 512 * k)
  {
    hide WordsOf, Entry;
    BootSlot(m, k);
    if table == 18 { PdeFrame(m, k); }
  }

  /** Every leaf lies in a boot table and maps a page of the first gigabyte. */
  lemma {:induction false} BootVisit(m: seq<byte>, level: nat, table: nat, v: Visit)
    requires BootTables.Booted(m) && TableLevel(table, level) && v in Visits(WordsOf(m), level, table, 0)
    ensures InTables(v.loc) && Start(WordsOf(m), v) + Size(v) <= GIB_WORDS
    ensures v.big ==> Start(WordsOf(m), v) == PAGE_WORDS * At(WordsOf(m), v.loc).frame
    decreases level
  {
    hide Visits, EntryVisits, WordsOf;
    var k := FromEntry(WordsOf(m), level, table, 0, v);
    BootEntry(m, table, k);
    var e := Entry(WordsOf(m), table, k);
    if level > 1 && !(level == 2 && e.pse) {
      BootVisit(m, level - 1, e.frame, v);
    }
  }

  lemma {:induction false} FromRead(m: Memory, level: nat, table: nat, i: nat, a: nat) returns (k: nat)
    requires a in Reads(m, level, table, i)
    ensures level > 0 && i <= k < ENTRIES
    ensures a == ENTRIES * table + k
            || (level > 1 && !(level == 2 && Entry(m, table, k).pse) && Entry(m, table, k).present
                && a in Reads(m, level - 1, Entry(m, table, k).frame, 0))
    decreases ENTRIES + 1 - i
  {
    if a in EntryReads(m, level, ENTRIES * table + i) {
      k := i;
    } else {
      k := FromRead(m, level, table, i + 1, a);
    }
  }

  /** The walk reads nothing but the three tables. */
  lemma {:induction false} BootRead(m: seq<byte>, level: nat, table: nat, a: nat)
    requires BootTables.Booted(m) && TableLevel(table, level) && a in Reads(WordsOf(m), level, table, 0)
    ensures InTables(a)
    decreases level
  {
    hide Reads, EntryReads, WordsOf;
    var k := FromRead(WordsOf(m), level, table, 0, a);
    BootEntry(m, table, k);
    if a != ENTRIES * table + k {
      BootRead(m, level - 1, Entry(WordsOf(m), table, k).frame, a);
    }
  }

  /** The configuration of a booted machine is valid. */
  lemma BootValid(m: seq<byte>, full: bool)
    requires BootTables.Booted(m) && |m| >= 8 * GIB_WORDS
    ensures ValidConfig(BootConfig(m, full))
  {
    hide Visits, Reads, WordsOf, Layered, WordsBelow;
    BootLayered(m);
    var c := BootConfig(m, full);
    assert c.shape == WordsOf(m);
    forall v | v in c.Leaves() ensures v.loc < |c.shape| && Start(c.shape, v) + Size(v) <= |c.shape| {
      BootVisit(m, 4, PML4, v);
    }
    forall a | a in c.Tables() ensures InTables(a) {
      BootRead(m, 4, PML4, a);
    }
  }

  /** The booted tables after the guest has touched everything they map. */
  function Touch(m: Memory): (n: Memory)
    ensures |n| == |m|
    ensures forall w: nat :: w < |m| ==> n[w] == if InTables(w) then m[w].(accessed := true) else m[w]
  {
    seq(|m|, w requires 0 <= w < |m| => if InTables(w) then m[w].(accessed := true) else m[w])
  }

  /** The page directory entry that maps word `w` is one of the leaves. */
  lemma BootLeaf(m: seq<byte>, w: nat) returns (v: Visit)
    requires BootTables.Booted(m) && w < GIB_WORDS
    ensures v in AllVisits(WordsOf(m)) && InTables(v.loc) && Covers(WordsOf(m), v, w)
  {
    hide WordsOf, Visits, Covers;
    var k := w / (512 * 512);
    v := Visit(ENTRIES * 18 + k, true);
    BootAliases(m, k);
    CoversWord(WordsOf(m), v, k, w);
  }

  lemma CoversWord(m: Memory, v: Visit, k: nat, w: nat)
    requires v.big && At(m, v.loc).frame == 512 * k && k == w / (512 * 512)
    ensures Covers(m, v, w)
  {
  }

  ghost function BootState(m: seq<byte>): State {
    State(Touch(WordsOf(m)), [], 0, [])
  }

  lemma BootStarts(m: seq<byte>, full: bool)
    requires BootTables.Booted(m) && |m| >= 8 * GIB_WORDS
    ensures Boot(BootConfig(m, full), BootState(m))
    ensures UpToDate(BootConfig(m, full), BootState(m).mem, Zero(|WordsOf(m)|), ModeOf(full, 0))
  {
    hide Visits, Reads, WordsOf, WordsBelow, ScanVisits;
    var c, n := BootConfig(m, full), Touch(WordsOf(m));
    BootValid(m, full);
    assert SameShape(n, c.shape, c.Tables());
    ShapeFacts(c, n);
    forall w | w in c.tracked ensures Pending(n, c.Leaves(), ModeOf(full, 0), w) {
      var v := BootLeaf(m, w);
      assert LeafShape(c, n, v);
      assert Covers(n, v, w) && Flagged(At(n, v.loc), ModeOf(full, 0));
    }
  }

  /** Runs as the checkpoint theorems speak of exist on the machine uhyve boots: it
      can take a checkpoint, announce it and restart from it. */
  lemma BootRun(m: seq<byte>, full: bool) returns (states: seq<State>, events: seq<Checkpoints.Event>)
    requires BootTables.Booted(m) && |m| >= 8 * GIB_WORDS
    ensures ValidConfig(BootConfig(m, full)) && IsRun(BootConfig(m, full), states, events)
    ensures events == [Dump, Commit, Restart]
  {
    hide Visits, Reads, WordsOf, WordsBelow, ScanVisits, Boot, ValidConfig, Load;
    var c, s0 := BootConfig(m, full), BootState(m);
    BootValid(m, full);
    BootStarts(m, full);
    BootReady(c, s0);
    ShapeFacts(c, s0.mem);
    var r := ScanVisits(s0.mem, AllVisits(s0.mem), ModeOf(full, 0));
    var s1 := State(r.0, s0.files + [r.1], 0, s0.snaps + [s0.mem]);
    assert Checkpoints.Step(c, Dump, s0, s1);
    DumpKeeps(c, s0, s1);
    var s2 := s1.(confirmed := 1);
    assert Checkpoints.Step(c, Commit, s1, s2);
    CommitKeeps(c, s1, s2);
    assert Saved(c, s2.files, s2.snaps[0], 0);
    var s3 := State(Image(c, s2.files, 0), s2.files[..1], 1, s2.snaps[..1]);
    assert Checkpoints.Step(c, Restart, s2, s3);
    states, events := [s0, s1, s2, s3], [Dump, Commit, Restart];
  }

  // ------------------------------------------------------------ migrations

  /** The last page of the first 2 MiB. */
  const LAST_PAGE: nat := 512 * 511

  lemma EntryAt(m: Memory, loc: nat)
    ensures Entry(m, loc / ENTRIES, loc % ENTRIES) == At(m, loc)
  {
    assert ENTRIES * (loc / ENTRIES) + loc % ENTRIES == loc;
  }

  /** A migration of the booted machine that registers all of its memory. */
  ghost function BootMigration(m: seq<byte>, full: bool, mode: Mode): Migration
    requires |m| < GAP_START || |m| >= GAP_END
  {
    Migration(BootConfig(m, full), mode, PhysChunks(|m|))
  }

  lemma BootRegistered(m: seq<byte>, full: bool, mode: Mode)
    requires BootTables.Booted(m) && |m| >= 8 * GIB_WORDS && (|m| < GAP_START || |m| >= GAP_END)
    ensures AllRegistered(BootMigration(m, full, mode))
  {
    hide Visits, WordsOf, WordsBelow, Whole, PhysChunks;
    var g := BootMigration(m, full, mode);
    assert g.c.shape == WordsOf(m);
    forall v | v in g.Leaves() ensures Whole(g.regions, PageAddr(g.c.shape, v), PageBytes(v)) {
      BootVisit(m, 4, PML4, v);
      PageAligned(WordsOf(m), v);
      PhysWhole(|m|, PageAddr(WordsOf(m), v), PageBytes(v));
    }
  }

  lemma PageAligned(m: Memory, v: Visit)
    ensures PageBytes(v) == (if v.big then 0x20_0000 else 0x1000) && PageAddr(m, v) % PageBytes(v) == 0
  {
    var f := At(m, v.loc).frame;
    if v.big {
      assert PageAddr(m, v) == f / 512 * 0x20_0000;
    } else {
      assert PageAddr(m, v) == f * 0x1000;
    }
  }

  /** On the machine uhyve boots, with all memory registered and for every start: a cold
      migration delivers exactly when each tracked word is equal at the destination or
      below a flagged leaf; a live migration that clears bits never does; one that does
      not clear bits again needs just that. */
  lemma BootMachineVerdict(m: seq<byte>, full: bool, mode: Mode, s: Live, first: Phase)
    requires BootTables.Booted(m) && |m| >= 8 * GIB_WORDS && (|m| < GAP_START || |m| >= GAP_END)
    requires first in {Scanning, FinalScan} && Fresh(BootMigration(m, full, mode), s, first)
    ensures var g := BootMigration(m, full, mode);
            Delivers(g, s) <==> UpToDate(g.c, s.mem, s.dest, mode) && (first == Scanning ==> !mode.clear)
  {
    hide Visits, Reads, WordsOf, WordsBelow, Delivers, UpToDate, Fresh, AllRegistered, ValidConfig;
    var g := BootMigration(m, full, mode);
    BootValid(m, full);
    BootRegistered(m, full, mode);
    DeliversIffUpToDate(g, s, first);
    BootWide(m, full, mode);
  }

  /** The last page below page directory entry 0 is sent by its 2 MiB visit only. */
  lemma BootWide(m: seq<byte>, full: bool, mode: Mode)
    requires BootTables.Booted(m) && |m| >= 8 * GIB_WORDS && (|m| < GAP_START || |m| >= GAP_END)
    ensures !Narrow(BootMigration(m, full, mode))
  {
    hide Visits, Reads, WordsOf, WordsBelow;
    var g, v, w := BootMigration(m, full, mode), Visit(ENTRIES * 18, true), LAST_PAGE;
    BootAliases(m, 0);
    if w in g.Tables() { BootRead(m, 4, PML4, w); }
    assert g.c.shape == WordsOf(m);
    assert Datum(g, v, w) && !Covers(g.c.shape, Visit(v.loc, false), w);
  }

  /** A cold migration that registers the allocated chunks of any free list never gets
      the page tables across: no run of it, however the guest was flagged, ends with the
      destination equal to the source. */
  lemma AllocatedOnlyNeverDelivers(m: seq<byte>, full: bool, g: Migration, rs: seq<Region>, guestSize: nat,
                                   s: Live, t: Live)
    requires BootTables.Booted(m) && |m| >= 8 * GIB_WORDS && Sane(rs, guestSize)
    requires AllCuttable(Parts(rs, guestSize)) && Counted(rs, guestSize) != []
    requires g.c == BootConfig(m, full) && g.regions == Registered(false, PhysChunks(guestSize), Counted(rs, guestSize))
    requires Fresh(g, s, FinalScan) && s.dest == Zero(|g.c.shape|) && Reaches(g, s, t)
    ensures !Delivered(g, t)
  {
    hide Visits, Reads, WordsOf, WordsBelow, Parts, AllCuttable, Counted, ValidConfig, Delivered, Reaches;
    var w := ENTRIES * PML4;
    BootValid(m, full);
    BootSlot(m, 0);
    forall v | v in g.Leaves() && Covers(g.c.shape, v, w) ensures !Listed(g.regions, PageAddr(g.c.shape, v)) {
      NothingBelowFirst(rs, guestSize, PageAddr(g.c.shape, v));
    }
    assert w in g.Tables() by { Pml4Read(WordsOf(m)); }
    assert Shape(At(g.c.shape, w)).present;
    UnlistedTableWord(g, s, FinalScan, w, t);
  }

  lemma Pml4Read(m: Memory)
    ensures ENTRIES * PML4 in AllReads(m)
  {
    assert ENTRIES * PML4 + 0 in EntryReads(m, 4, ENTRIES * PML4 + 0);
  }

  /** After an announced checkpoint (n > 0) both kinds of migration fail from a start
      that would be complete before the first one: everything the guest has is accessed,
      nothing is dirty. */
  lemma CleanPagesAreLost(m: seq<byte>, n: nat, first: Phase)
    requires BootTables.Booted(m) && |m| >= 8 * GIB_WORDS && (|m| < GAP_START || |m| >= GAP_END)
    requires n > 0 && first in {Scanning, FinalScan}
    ensures var g := BootMigration(m, false, ModeOf(false, n));
            exists s :: Fresh(g, s, first) && s.dest == Zero(|g.c.shape|)
              && UpToDate(g.c, s.mem, s.dest, ModeOf(false, 0)) && !Delivers(g, s)
  {
    hide Visits, Reads, WordsOf, WordsBelow, PhysChunks, Delivers, UpToDate, ValidConfig;
    var g := BootMigration(m, false, ModeOf(false, n));
    var s := Live(Touch(WordsOf(m)), Zero(|WordsOf(m)|), [], [], 0, 0, first, false);
    BootValid(m, false);
    BootStarts(m, false);
    BootRegistered(m, false, ModeOf(false, n));
    NothingDirty(m, n);
    hide AllRegistered, Touch;
    DeliversIffUpToDate(g, s, first);
  }

  lemma NothingDirty(m: seq<byte>, n: nat)
    requires BootTables.Booted(m) && |m| >= 8 * GIB_WORDS && n > 0
    ensures var c := BootConfig(m, false);
            !UpToDate(c, Touch(WordsOf(m)), Zero(|c.shape|), ModeOf(false, n))
  {
    hide Visits, Reads, WordsOf, WordsBelow, Entry;
    var c, w, mem := BootConfig(m, false), ENTRIES * PML4, Touch(WordsOf(m));
    BootValid(m, false);
    BootSlot(m, 0);
    EntryAt(WordsOf(m), w);
    Pml4Read(WordsOf(m));
    assert At(mem, w).present;
    forall v | v in c.Leaves() ensures !At(mem, v.loc).dirty {
      BootVisit(m, 4, PML4, v);
      BootClean(m, v.loc);
    }
  }

  /** The boot entries carry no DIRTY bit. */
  lemma BootClean(m: seq<byte>, loc: nat)
    requires BootTables.Booted(m) && InTables(loc)
    ensures !At(WordsOf(m), loc).dirty
  {
    hide WordsOf, Load64;
    var table, i := loc / ENTRIES, loc % ENTRIES;
    EntryAt(WordsOf(m), loc);
    SameEntry(m, table, i);
    assert BootTables.Entry(m, 0x1000 * table, i) == Load64(m, table * PAGE_SIZE + 8 * i);
    assert table == 18 ==> BootTables.PdeEntry(i) / 0x40 == i * 0x8000 + 2;
  }
}
