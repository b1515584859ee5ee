/** scan_page_tables (uhyve-x86_64.c:704-745) over guest memory seen as 8-byte
    words. The four table levels live in that same memory. */
module Scan {
  import opened Pte

  const ENTRIES: nat := 512
  const PAGE_WORDS: nat := 512
  const PML4: nat := 0x10000 / 0x1000

  type Memory = seq<Word>

  const ABSENT := Word(false, false, false, false, 0, 0, 0, 0)

  function At(m: Memory, w: nat): Word {
    if w < |m| then m[w] else ABSENT
  }

  /** A word with its ACCESSED and DIRTY bits cleared: what hardware cannot change. */
  function Shape(e: Word): Word {
    e.(accessed := false, dirty := false)
  }

  /** Equal up to the ACCESSED and DIRTY bits of the words in `tables`. */
  predicate Similar(tables: set<nat>, w: nat, x: Word, y: Word) {
    if w in tables then Shape(x) == Shape(y) else x == y
  }

  // ------------------------------------------------------------ the walk

  /** One entry the scan tests for its flag: the word `loc`, taken as a 2 MiB
      leaf (`big`) or as a 4 KiB leaf. */
  datatype Visit = Visit(loc: nat, big: bool)

  /** The leaves below entry `i` and its successors of the table in frame
      `table`, in scan order. Levels count 4 (PML4) down to 1 (page table). */
  function Visits(m: Memory, level: nat, table: nat, i: nat): seq<Visit>
    decreases level, ENTRIES + 1 - i
  {
    if level == 0 || i >= ENTRIES then []
    else EntryVisits(m, level, ENTRIES * table + i) + Visits(m, level, table, i + 1)
  }

  function EntryVisits(m: Memory, level: nat, loc: nat): seq<Visit>
    decreases level, 0
  {
    var e := At(m, loc);
    if !e.present || level == 0 then []
    else if level == 1 then [Visit(loc, false)]
    else if level == 2 && e.pse then [Visit(loc, true)]
    else Visits(m, level - 1, e.frame, 0)
  }

  /** The words the same walk reads; hardware walks read no others. */
  function Reads(m: Memory, level: nat, table: nat, i: nat): set<nat>
    decreases level, ENTRIES + 1 - i
  {
    if level == 0 || i >= ENTRIES then {}
    else EntryReads(m, level, ENTRIES * table + i) + Reads(m, level, table, i + 1)
  }

  function EntryReads(m: Memory, level: nat, loc: nat): set<nat>
    decreases level, 0
  {
    var e := At(m, loc);
    if !e.present || level <= 1 || (level == 2 && e.pse) then {loc}
    else {loc} + Reads(m, level - 1, e.frame, 0)
  }

  function AllVisits(m: Memory): seq<Visit> {
    Visits(m, 4, PML4, 0)
  }

  function AllReads(m: Memory): set<nat> {
    Reads(m, 4, PML4, 0)
  }

  /** First word and number of words of the page a visit refers to. */
  function Start(m: Memory, v: Visit): nat {
    var f := At(m, v.loc).frame;
    PAGE_WORDS * (if v.big then f / 512 * 512 else f)
  }

  function Size(v: Visit): nat {
    if v.big then PAGE_WORDS * 512 else PAGE_WORDS
  }

  predicate Covers(m: Memory, v: Visit, w: nat) {
    Start(m, v) <= w < Start(m, v) + Size(v)
  }

  /** Every table word and every page of these visits lies in guest memory. */
  ghost predicate PagesFit(m: Memory, vs: seq<Visit>) {
    forall v :: v in vs ==> v.loc < |m| && Start(m, v) + Size(v) <= |m|
  }

  /** Two memories with the same tables up to ACCESSED and DIRTY. */
  predicate SameShape(m: Memory, n: Memory, words: set<nat>) {
    |m| == |n| && forall w :: w in words ==> Shape(At(m, w)) == Shape(At(n, w))
  }

  lemma {:induction false} WalkFramed(m: Memory, n: Memory, level: nat, table: nat, i: nat)
    requires SameShape(m, n, Reads(m, level, table, i))
    ensures Visits(m, level, table, i) == Visits(n, level, table, i)
    ensures Reads(m, level, table, i) == Reads(n, level, table, i)
    decreases level, ENTRIES + 1 - i
  {
    hide EntryVisits, EntryReads;
    if level > 0 && i < ENTRIES {
      var loc := ENTRIES * table + i;
      assert Reads(m, level, table, i) == EntryReads(m, level, loc) + Reads(m, level, table, i + 1);
      EntryFramed(m, n, level, loc);
      WalkFramed(m, n, level, table, i + 1);
    }
  }

  lemma {:induction false} EntryFramed(m: Memory, n: Memory, level: nat, loc: nat)
    requires SameShape(m, n, EntryReads(m, level, loc))
    ensures EntryVisits(m, level, loc) == EntryVisits(n, level, loc)
    ensures EntryReads(m, level, loc) == EntryReads(n, level, loc)
    decreases level, 0
  {
    assert loc in EntryReads(m, level, loc);
    var e := At(m, loc);
    assert Shape(e) == Shape(At(n, loc));
    if e.present && level > 1 && !(level == 2 && e.pse) {
      WalkFramed(m, n, level - 1, e.frame, 0);
    }
  }

  /** Every leaf is a present word that the walk reads, a 2 MiB leaf has PSE set. */
  lemma {:induction false} VisitIsRead(m: Memory, level: nat, table: nat, i: nat, v: Visit)
    requires v in Visits(m, level, table, i)
    ensures v.loc in Reads(m, level, table, i)
    ensures At(m, v.loc).present && (v.big ==> At(m, v.loc).pse)
    decreases level, ENTRIES + 1 - i
  {
    var loc := ENTRIES * table + i;
    if v in EntryVisits(m, level, loc) {
      EntryVisitIsRead(m, level, loc, v);
    } else {
      VisitIsRead(m, level, table, i + 1, v);
    }
  }

  lemma {:induction false} EntryVisitIsRead(m: Memory, level: nat, loc: nat, v: Visit)
    requires v in EntryVisits(m, level, loc)
    ensures v.loc in EntryReads(m, level, loc)
    ensures At(m, v.loc).present && (v.big ==> At(m, v.loc).pse)
    decreases level, 0
  {
    var e := At(m, loc);
    if level > 1 && !(level == 2 && e.pse) {
      VisitIsRead(m, level - 1, e.frame, 0, v);
    }
  }

  // ------------------------------------------------------------ the scan

  /** Which bit selects a leaf and whether selected leaves are cleared. */
  datatype Mode = Mode(dirtyOnly: bool, clear: bool)

  function ModeOf(fullCheckpoint: bool, noCheckpoint: nat): Mode {
    Mode(!fullCheckpoint && noCheckpoint > 0, !fullCheckpoint)
  }

  predicate Flagged(e: Word, mode: Mode) {
    if mode.dirtyOnly then e.dirty else e.accessed
  }

  /** One call of the save_page handler. */
  datatype Record = Record(entry: Word, page: seq<Word>)

  function ClearLeaf(m: Memory, v: Visit, mode: Mode): Memory
    requires v.loc < |m|
  {
    if Flagged(m[v.loc], mode) && mode.clear then m[v.loc := Shape(m[v.loc])] else m
  }

  /** The record for a leaf, read from memory after its bits are cleared. */
  function LeafRecord(m: Memory, v: Visit): Record
    requires v.loc < |m| && Start(m, v) + Size(v) <= |m|
  {
    Record(if v.big then m[v.loc] else m[v.loc].(pse := false), m[Start(m, v)..Start(m, v) + Size(v)])
  }

  function VisitOne(m: Memory, v: Visit, mode: Mode): (Memory, seq<Record>)
    requires PagesFit(m, [v])
  {
    assert v in [v];
    if Flagged(m[v.loc], mode) then
      var n := ClearLeaf(m, v, mode);
      (n, [LeafRecord(n, v)])
    else (m, [])
  }

  /** Memory and records after the visits `vs`, in order. */
  function ScanVisits(m: Memory, vs: seq<Visit>, mode: Mode): (r: (Memory, seq<Record>))
    requires PagesFit(m, vs)
    ensures |r.0| == |m| && forall w :: Shape(At(r.0, w)) == Shape(At(m, w))
  {
    if vs == [] then (m, [])
    else
      var k := |vs| - 1;
      assert forall v :: v in vs[..k] ==> v in vs;
      var done := ScanVisits(m, vs[..k], mode);
      assert vs[k] in vs;
      var last := VisitOne(done.0, vs[k], mode);
      (last.0, done.1 + last.1)
  }

  /** The chk*_mem.dat stream after the clock: entry, page, entry, page, ... */
  function Serialize(rs: seq<Record>): seq<Word> {
    if rs == [] then [] else Serialize(rs[..|rs| - 1]) + [rs[|rs| - 1].entry] + rs[|rs| - 1].page
  }

  lemma ScanSnoc(m: Memory, done: seq<Visit>, v: Visit, mode: Mode)
    requires PagesFit(m, done) && PagesFit(m, [v])
    ensures PagesFit(m, done + [v]) && PagesFit(ScanVisits(m, done, mode).0, [v])
    ensures var s := ScanVisits(m, done, mode);
            var last := VisitOne(s.0, v, mode);
            ScanVisits(m, done + [v], mode) == (last.0, s.1 + last.1)
  {
    var all := done + [v];
    assert all[..|all| - 1] == done && v in [v];
  }

  predicate Visited(vs: seq<Visit>, w: nat) {
    exists v :: v in vs && v.loc == w
  }

  /** What the scan makes of one word: an incremental scan clears both bits of each
      visited entry that carries the selected one, ACCESSED for the first checkpoint and
      DIRTY after it; everything else, and everything in a full checkpoint, stays. */
  function ScannedWord(m: Memory, vs: seq<Visit>, full: bool, n: nat, w: nat): Word {
    if !full && Visited(vs, w) && (if n == 0 then At(m, w).accessed else At(m, w).dirty) then
      At(m, w).(accessed := false, dirty := false)
    else At(m, w)
  }

  lemma {:induction false} ScanMemory(m: Memory, vs: seq<Visit>, full: bool, n: nat, w: nat)
    requires PagesFit(m, vs)
    ensures At(ScanVisits(m, vs, ModeOf(full, n)).0, w) == ScannedWord(m, vs, full, n, w)
  {
    if vs != [] {
      var k := |vs| - 1;
      assert vs[k] in vs && vs[k] in [vs[k]] && forall v :: v in vs[..k] ==> v in vs;
      ScanMemory(m, vs[..k], full, n, w);
      assert Visited(vs, w) <==> Visited(vs[..k], w) || vs[k].loc == w by { assert vs == vs[..k] + [vs[k]]; }
    }
  }

  lemma NothingScanned(m: Memory, mode: Mode)
    ensures PagesFit(m, []) && ScanVisits(m, [], mode) == (m, []) && Serialize([]) == []
  {}

  lemma SerializeSnoc(rs: seq<Record>, r: Record)
    ensures Serialize(rs + [r]) == Serialize(rs) + [r.entry] + r.page
  {
    assert (rs + [r])[..|rs|] == rs;
  }

  /** The checkpointing side of the hypervisor: guest memory and the open file. */
  class Checkpointer {
    const mem: array<Word>
    var file: seq<Word>

    constructor (mem: array<Word>)
      ensures this.mem == mem && file == []
    {
      this.mem := mem;
      file := [];
    }

    /** scan_page_tables with the checkpoint handler. */
    method ScanPageTables(fullCheckpoint: bool, noCheckpoint: nat)
      requires file == []
      requires WalkFits(mem[..], AllVisits(mem[..]), AllReads(mem[..]))
      modifies this`file, mem
      ensures Scanned(old(mem[..]), AllVisits(old(mem[..])), ModeOf(fullCheckpoint, noCheckpoint))
      ensures forall w: nat :: w < mem.Length ==>
                mem[w] == ScannedWord(old(mem[..]), AllVisits(old(mem[..])), fullCheckpoint, noCheckpoint, w)
    {
      hide Visits, Reads, ScanVisits, Serialize;
      ghost var m := mem[..];
      NothingScanned(m, ModeOf(fullCheckpoint, noCheckpoint));
      ScanTable(4, PML4, ModeOf(fullCheckpoint, noCheckpoint), m, []);
      assert [] + AllVisits(m) == AllVisits(m);
      forall w: nat | w < mem.Length ensures mem[w] == ScannedWord(m, AllVisits(m), fullCheckpoint, noCheckpoint, w) {
        ScanMemory(m, AllVisits(m), fullCheckpoint, noCheckpoint, w);
        assert mem[w] == At(mem[..], w);
      }
    }

    /** write_mem_page_to_chk_file. */
    method SavePage(entry: Word, page: seq<Word>)
      modifies this`file
      ensures file == old(file) + [entry] + page
    {
      file := file + [entry];
      file := file + page;
    }

    /** The test-clear-save body shared by the 4 KiB and the 2 MiB leaf. */
    method VisitLeaf(v: Visit, mode: Mode, ghost before: Memory, ghost done: seq<Visit>)
      requires Scanned(before, done, mode)
      requires PagesFit(before, [v])
      modifies this`file, mem
      ensures Scanned(before, done + [v], mode)
    {
      hide ScanVisits, Serialize;
      ghost var m, rs := mem[..], ScanVisits(before, done, mode).1;
      ScanSnoc(before, done, v, mode);
      if Flagged(mem[v.loc], mode) {
        if mode.clear {
          mem[v.loc] := Shape(mem[v.loc]);
        }
        assert mem[..] == ClearLeaf(m, v, mode);
        var e := mem[v.loc];
        var start := PAGE_WORDS * (if v.big then e.frame / 512 * 512 else e.frame);
        SavePage(if v.big then e else e.(pse := false), mem[start..start + Size(v)]);
        assert mem[start..start + Size(v)] == mem[..][start..start + Size(v)];
        SerializeSnoc(rs, LeafRecord(mem[..], v));
      } else {
        assert rs + [] == rs;
      }
    }

    /** One table of the nested loops: every entry of the table in frame
        `table`, descending into the tables below it. */
    method ScanTable(level: nat, table: nat, mode: Mode, ghost before: Memory, ghost done: seq<Visit>)
      requires 1 <= level <= 4
      requires Scanned(before, done, mode)
      requires WalkFits(before, Visits(before, level, table, 0), Reads(before, level, table, 0))
      modifies this`file, mem
      ensures Scanned(before, done + Visits(before, level, table, 0), mode)
      decreases level, 1
    {
      hide *;
      ghost var seen := done;
      ghost var all := done + Visits(before, level, table, 0);
      for i := 0 to ENTRIES
        invariant WalkFits(before, Visits(before, level, table, i), Reads(before, level, table, i))
        invariant seen + Visits(before, level, table, i) == all
        invariant Scanned(before, seen, mode)
      {
        TableStep(before, level, table, i, seen);
        ScanEntry(level, ENTRIES * table + i, mode, before, seen);
        seen := seen + EntryVisits(before, level, ENTRIES * table + i);
      }
      TableEnd(before, level, table);
      assert seen == all;
    }

    method ScanEntry(level: nat, loc: nat, mode: Mode, ghost before: Memory, ghost done: seq<Visit>)
      requires 1 <= level <= 4
      requires Scanned(before, done, mode)
      requires WalkFits(before, EntryVisits(before, level, loc), EntryReads(before, level, loc))
      modifies this`file, mem
      ensures Scanned(before, done + EntryVisits(before, level, loc), mode)
      decreases level, 0
    {
      hide ScanVisits, Visits, Reads, Serialize;
      assert loc in EntryReads(before, level, loc);
      assert Shape(At(mem[..], loc)) == Shape(At(before, loc));
      var e := mem[loc];
      if !e.present {
        assert done + EntryVisits(before, level, loc) == done;
      } else if level == 1 {
        VisitLeaf(Visit(loc, false), mode, before, done);
      } else if level == 2 && e.pse {
        VisitLeaf(Visit(loc, true), mode, before, done);
      } else {
        ScanTable(level - 1, e.frame, mode, before, done);
      }
    }

    /** Memory and file are those of the scan of `before` after the visits `done`. */
    ghost predicate Scanned(before: Memory, done: seq<Visit>, mode: Mode)
      reads this, mem
    {
      && PagesFit(before, done)
      && mem[..] == ScanVisits(before, done, mode).0
      && file == Serialize(ScanVisits(before, done, mode).1)
    }
  }

  ghost predicate WalkFits(m: Memory, vs: seq<Visit>, words: set<nat>) {
    PagesFit(m, vs) && forall w :: w in words ==> w < |m|
  }

  /** Entry `i` and the entries behind it make up the rest of the table. */
  lemma TableStep(m: Memory, level: nat, table: nat, i: nat, seen: seq<Visit>)
    requires level > 0 && i < ENTRIES
    requires WalkFits(m, Visits(m, level, table, i), Reads(m, level, table, i))
    ensures WalkFits(m, EntryVisits(m, level, ENTRIES * table + i), EntryReads(m, level, ENTRIES * table + i))
    ensures WalkFits(m, Visits(m, level, table, i + 1), Reads(m, level, table, i + 1))
    ensures seen + Visits(m, level, table, i)
            == seen + EntryVisits(m, level, ENTRIES * table + i) + Visits(m, level, table, i + 1)
  {
    var here, rest := EntryVisits(m, level, ENTRIES * table + i), Visits(m, level, table, i + 1);
    assert Visits(m, level, table, i) == here + rest;
    assert forall v :: v in here || v in rest ==> v in here + rest;
  }

  lemma TableEnd(m: Memory, level: nat, table: nat)
    ensures Visits(m, level, table, ENTRIES) == []
  {
  }
}
