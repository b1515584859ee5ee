/** What makes incremental checkpoints incremental (uhyve-x86_64.c:706, 722-739): a file
    holds only pages the guest has marked since the file before. */
module IncrementalDumps {
  import opened Scan
  import opened Records
  import opened FrozenScan
  import opened Checkpoints

  /** An entry that software left dirty but not accessed before the first checkpoint. */
  predicate Odd(m: Memory, n: nat, loc: nat) {
    n == 0 && At(m, loc).dirty && !At(m, loc).accessed
  }

  /** After an incremental dump no leaf is dirty, odd ones of the first dump excepted. */
  lemma DumpClears(c: Config, s: State, t: State, v: Visit)
    requires ValidConfig(c) && !c.full && Inv(c, s) && Step(c, Dump, s, t) && v in c.Leaves()
    ensures At(t.mem, v.loc).dirty ==> Odd(s.mem, s.confirmed, v.loc)
  {
    hide Visits, Reads, ScanVisits, UpToDate, Saved, Base;
    ShapeFacts(c, s.mem);
    ScanMemory(s.mem, c.Leaves(), false, s.confirmed, v.loc);
    assert Visited(c.Leaves(), v.loc);
  }

  /** Each record of a dump after the first is the page of a dirty leaf. */
  lemma DirtySaved(c: Config, s: State, t: State, r: Record)
    requires ValidConfig(c) && !c.full && s.confirmed > 0 && Inv(c, s) && Step(c, Dump, s, t)
    requires t.files != [] && r in t.files[|t.files| - 1]
    ensures exists v :: v in c.Leaves() && At(s.mem, v.loc).dirty && Dest(r.entry) == Start(c.shape, v)
                        && |r.page| == Size(v)
  {
    hide Visits, Reads, ScanVisits, UpToDate, Saved, Base;
    ShapeFacts(c, s.mem);
    RecordFaithful(s.mem, c.Leaves(), ModeOf(false, s.confirmed), c.Tables(), r);
    var v :| v in c.Leaves() && Flagged(s.mem[v.loc], ModeOf(false, s.confirmed))
             && Dest(r.entry) == Start(s.mem, v) && |r.page| == Size(v);
    assert LeafShape(c, s.mem, v);
  }

  /** Events i+1..k neither dump nor restart. */
  predicate Between(events: seq<Event>, i: nat, k: nat) {
    k <= |events| && forall x :: i < x < k ==> events[x] == Run || events[x] == Commit
  }

  lemma {:induction false} FilesStay(c: Config, states: seq<State>, events: seq<Event>, i: nat, k: nat)
    requires IsRun(c, states, events) && i < k <= |events| && events[i] == Dump && Between(events, i, k)
    ensures |states| == |events| + 1 && states[k].files == states[i + 1].files && states[k].files != []
  {
    hide *;
    if k > i + 1 {
      FilesStay(c, states, events, i, k - 1) by { Shorter(events, i, k); }
      RunStep(c, states, events, k - 1);
      NoDump(c, events, i, k, states[k - 1], states[k]);
    } else {
      RunStep(c, states, events, i);
      DumpAdds(c, states[i], states[k]);
    }
  }

  lemma Shorter(events: seq<Event>, i: nat, k: nat)
    requires Between(events, i, k) && i + 1 < k
    ensures Between(events, i, k - 1)
  {}

  lemma NoDump(c: Config, events: seq<Event>, i: nat, k: nat, s: State, t: State)
    requires Between(events, i, k) && i + 1 < k && Step(c, events[k - 1], s, t)
    ensures t.files == s.files
  {
    hide Visits, ScanVisits, Progress;
  }

  lemma DumpAdds(c: Config, s: State, t: State)
    requires Step(c, Dump, s, t)
    ensures t.files != []
  {
    hide Visits, ScanVisits, UpToDate;
  }

  /** Two dumps with only guest execution and the commit between them: each record of the
      second is the page of a leaf that was clean after the first and is dirty now. */
  lemma OnlyMarkedSaved(c: Config, states: seq<State>, events: seq<Event>, i: nat, j: nat, r: Record)
    requires ValidConfig(c) && !c.full && IsRun(c, states, events)
    requires i < j < |events| && events[i] == Dump && events[j] == Dump && Between(events, i, j)
    requires states[j + 1].files != [] && r in states[j + 1].files[|states[j + 1].files| - 1]
    ensures exists v :: v in c.Leaves() && Dest(r.entry) == Start(c.shape, v) && |r.page| == Size(v)
              && At(states[j].mem, v.loc).dirty
              && (At(states[i + 1].mem, v.loc).dirty ==> Odd(states[i].mem, states[i].confirmed, v.loc))
  {
    hide *;
    RunStep(c, states, events, i);
    RunStep(c, states, events, j);
    RunInv(c, states, events, i);
    RunInv(c, states, events, j);
    FilesStay(c, states, events, i, j);
    LaterDump(c, states[j], states[j + 1]);
    DirtySaved(c, states[j], states[j + 1], r);
    var v :| v in c.Leaves() && At(states[j].mem, v.loc).dirty && Dest(r.entry) == Start(c.shape, v)
             && |r.page| == Size(v);
    DumpClears(c, states[i], states[i + 1], v);
  }

  lemma LaterDump(c: Config, s: State, t: State)
    requires Step(c, Dump, s, t) && s.files != []
    ensures s.confirmed > 0
  {
    hide Visits, ScanVisits, UpToDate;
  }

  /** If nothing ran in between, the second file is empty. */
  lemma NothingRanNothingSaved(c: Config, states: seq<State>, events: seq<Event>, i: nat)
    requires ValidConfig(c) && !c.full && IsRun(c, states, events)
    requires i + 2 < |events| && events[i] == Dump && events[i + 1] == Commit && events[i + 2] == Dump
    requires forall v :: v in c.Leaves() ==> !Odd(states[i].mem, states[i].confirmed, v.loc)
    ensures states[i + 3].files != [] && states[i + 3].files[|states[i + 3].files| - 1] == []
  {
    hide *;
    RunStep(c, states, events, i);
    RunStep(c, states, events, i + 1);
    RunStep(c, states, events, i + 2);
    CommitOnly(c, states[i + 1], states[i + 2]);
    DumpAdds(c, states[i + 2], states[i + 3]);
    var last := states[i + 3].files[|states[i + 3].files| - 1];
    if last != [] {
      var r := last[0];
      OnlyMarkedSaved(c, states, events, i, i + 2, r) by { OneCommit(events, i); }
    }
  }

  lemma CommitOnly(c: Config, s: State, t: State)
    requires Step(c, Commit, s, t)
    ensures t.mem == s.mem
  {
    hide Visits, ScanVisits, Progress;
  }

  lemma OneCommit(events: seq<Event>, i: nat)
    requires i + 2 <= |events| && events[i + 1] == Commit
    ensures Between(events, i, i + 2)
  {}
}
