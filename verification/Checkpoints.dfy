/** Checkpoint and restart runs (uhyve-x86_64.c:704-745, 825-906, 1032-1119;
    uhyve.c:316-324, 721-739): the guest runs, the timer dumps memory, the
    configuration file is updated, the machine restarts from disk. */
module Checkpoints {
  import opened Scan
  import opened Records
  import opened FrozenScan

  /** `shape` fixes the page tables up to ACCESSED and DIRTY. `tracked` are the
      words a restart must bring back; host-written buffers stay outside it. */
  datatype Config = Config(shape: Memory, tracked: set<nat>, full: bool) {
    ghost function Leaves(): seq<Visit> { AllVisits(shape) }
    ghost function Tables(): set<nat> { AllReads(shape) }
  }

  ghost predicate ValidConfig(c: Config) {
    && WalkFits(c.shape, c.Leaves(), c.Tables())
    && WidestFirst(c.Leaves())
    && c.Tables() <= c.tracked
    && forall w :: w in c.tracked ==> w < |c.shape|
  }

  /** `files[k]` is chk<k>_mem.dat; `confirmed` files are announced by
      chk_config.txt, so it is also no_checkpoint. `snaps[k]` remembers memory
      at the moment file k was begun. */
  datatype State = State(mem: Memory, files: seq<seq<Record>>, confirmed: nat, snaps: seq<Memory>)

  /** Any amount of guest execution and host writes: hardware sets ACCESSED and
      DIRTY in table words, a tracked word only changes below a leaf that
      carries both bits afterwards, untracked words are arbitrary. */
  ghost predicate Progress(c: Config, m: Memory, n: Memory) {
    && |n| == |m|
    && (forall w :: w in c.Tables() ==> Shape(At(n, w)) == Shape(At(m, w)))
    && (forall w :: w in c.Tables() && At(m, w).accessed ==> At(n, w).accessed)
    && (forall w :: w in c.Tables() && At(m, w).dirty ==> At(n, w).dirty)
    && (forall w :: w in c.tracked && w !in c.Tables() && At(n, w) != At(m, w) ==> Touched(c, n, w))
  }

  ghost predicate Touched(c: Config, n: Memory, w: nat) {
    exists v :: v in c.Leaves() && Covers(c.shape, v, w) && At(n, v.loc).accessed && At(n, v.loc).dirty
  }

  datatype Event = Run | Dump | Commit | Restart

  ghost predicate Step(c: Config, e: Event, s: State, t: State) {
    match e
    case Run =>
      Progress(c, s.mem, t.mem) && t == s.(mem := t.mem)
    case Dump => // by the first one, whatever is not zero has been accessed
      && |s.files| == s.confirmed
      && (s.files == [] ==> UpToDate(c, s.mem, Zero(|c.shape|), ModeOf(c.full, 0)))
      && PagesFit(s.mem, AllVisits(s.mem))
      && var r := ScanVisits(s.mem, AllVisits(s.mem), ModeOf(c.full, s.confirmed));
         t == State(r.0, s.files + [r.1], s.confirmed, s.snaps + [s.mem])
    case Commit =>
      && |s.files| == s.confirmed + 1
      && t == s.(confirmed := s.confirmed + 1)
    case Restart =>
      && 0 < s.confirmed <= |s.files| == |s.snaps|
      && AllFit(FilesRead(s.files, c.full, s.confirmed - 1), |c.shape|)
      && t == State(Image(c, s.files, s.confirmed - 1), s.files[..s.confirmed], s.confirmed, s.snaps[..s.confirmed])
  }

  /** What load_checkpoint builds for checkpoint k in fresh zeroed memory. */
  ghost function Image(c: Config, files: seq<seq<Record>>, k: nat): Memory
    requires k < |files| && AllFit(FilesRead(files, c.full, k), |c.shape|)
  {
    Load(Zero(|c.shape|), FilesRead(files, c.full, k))
  }

  /** A fresh boot: no files; memory holds whatever the loader has put there. */
  ghost predicate Boot(c: Config, s: State) {
    && s.files == [] && s.confirmed == 0 && s.snaps == []
    && SameShape(s.mem, c.shape, c.Tables())
  }

  /** Every tracked word equals `base` or waits below a flagged leaf. */
  ghost predicate UpToDate(c: Config, m: Memory, base: Memory, mode: Mode) {
    && |base| == |m| == |c.shape|
    && forall w :: w in c.tracked ==> Similar(c.Tables(), w, At(base, w), At(m, w)) || Pending(m, c.Leaves(), mode, w)
  }

  /** `image` and `snap` agree on all tracked words, up to ACCESSED and DIRTY
      bits of table words. */
  ghost predicate Rebuilds(c: Config, image: Memory, snap: Memory) {
    && |image| == |snap| == |c.shape|
    && forall w :: w in c.tracked ==> Similar(c.Tables(), w, At(image, w), At(snap, w))
  }

  /** The image the next dump completes: everything saved so far, or nothing
      for full checkpoints. */
  ghost function Base(c: Config, files: seq<seq<Record>>): Memory
    requires forall k :: 0 <= k < |files| ==> AllFit(files[k], |c.shape|)
  {
    if c.full then Zero(|c.shape|)
    else
      ChainFits(files, |c.shape|);
      Load(Zero(|c.shape|), Chain(files))
  }

  ghost predicate Inv(c: Config, s: State) {
    && s.confirmed <= |s.files| <= s.confirmed + 1
    && |s.snaps| == |s.files|
    && (forall k :: 0 <= k < |s.files| ==> AllFit(s.files[k], |c.shape|))
    && SameShape(s.mem, c.shape, c.Tables())
    && (s.files != [] ==> UpToDate(c, s.mem, Base(c, s.files), ModeOf(c.full, |s.files|)))
    && forall k :: 0 <= k < |s.files| ==> Saved(c, s.files, s.snaps[k], k)
  }

  /** Checkpoint k rebuilds its snapshot, and a machine restarted from it is
      again ready for the next dump. */
  ghost predicate Saved(c: Config, files: seq<seq<Record>>, snap: Memory, k: nat)
    requires k < |files|
  {
    && AllFit(FilesRead(files, c.full, k), |c.shape|)
    && Rebuilds(c, Image(c, files, k), snap)
    && SameShape(snap, c.shape, c.Tables())
    && (c.full ==> UpToDate(c, Image(c, files, k), Zero(|c.shape|), ModeOf(true, 0)))
  }

  lemma {:induction false} ChainFits(files: seq<seq<Record>>, size: nat)
    requires forall k :: 0 <= k < |files| ==> AllFit(files[k], size)
    ensures AllFit(Chain(files), size)
  {
    if files != [] {
      ChainFits(files[..|files| - 1], size);
    }
  }

  /** The walk of a memory with the configured shape. */
  lemma ShapeFacts(c: Config, m: Memory)
    requires ValidConfig(c) && SameShape(m, c.shape, c.Tables())
    ensures AllVisits(m) == c.Leaves() && AllReads(m) == c.Tables()
    ensures GoodLeaves(m, c.Leaves())
    ensures forall v :: v in c.Leaves() ==> LeafShape(c, m, v)
  {
    hide Visits, Reads;
    WalkFramed(c.shape, m, 4, PML4, 0);
    forall v | v in c.Leaves() ensures LeafShape(c, m, v) {
      VisitIsRead(c.shape, 4, PML4, 0, v);
    }
  }

  ghost predicate LeafShape(c: Config, m: Memory, v: Visit) {
    && v.loc in c.Tables()
    && v.loc < |m| == |c.shape|
    && Start(m, v) == Start(c.shape, v)
    && At(m, v.loc).present
    && (v.big ==> At(m, v.loc).pse)
  }

  lemma RunKeeps(c: Config, s: State, t: State)
    requires ValidConfig(c) && Inv(c, s) && Step(c, Run, s, t)
    ensures Inv(c, t)
  {
    hide Visits, Reads, Load;
    ShapeFacts(c, s.mem);
    ShapeFacts(c, t.mem);
    var mode, base := ModeOf(c.full, |s.files|), Base(c, s.files);
    forall w | s.files != [] && w in c.tracked
      ensures Similar(c.Tables(), w, At(base, w), At(t.mem, w)) || Pending(t.mem, c.Leaves(), mode, w)
    {
      if w !in c.Tables() && At(t.mem, w) != At(s.mem, w) {
        var v :| v in c.Leaves() && Covers(c.shape, v, w) && At(t.mem, v.loc).accessed && At(t.mem, v.loc).dirty;
        assert Covers(t.mem, v, w);
      } else if Pending(s.mem, c.Leaves(), mode, w) {
        var v :| v in c.Leaves() && Covers(s.mem, v, w) && Flagged(At(s.mem, v.loc), mode);
        assert Covers(t.mem, v, w);
      }
    }
  }

  /** Checkpoint |files| is the next file loaded over the base. */
  lemma NextImage(c: Config, files: seq<seq<Record>>, recs: seq<Record>)
    requires forall k :: 0 <= k < |files| ==> AllFit(files[k], |c.shape|)
    requires AllFit(recs, |c.shape|)
    ensures AllFit(FilesRead(files + [recs], c.full, |files|), |c.shape|)
    ensures Image(c, files + [recs], |files|) == Load(Base(c, files), recs)
    ensures forall k :: 0 <= k < |files| ==> FilesRead(files + [recs], c.full, k) == FilesRead(files, c.full, k)
    ensures forall k :: 0 <= k <= |files| ==> AllFit((files + [recs])[k], |c.shape|)
    ensures !c.full ==> Base(c, files + [recs]) == Load(Base(c, files), recs)
  {
    var all := files + [recs];
    ChainFits(files, |c.shape|);
    assert all[..|files| + 1] == all && all[..|files|] == files;
    assert Chain(all) == Chain(files) + recs;
    forall k | 0 <= k < |files| ensures FilesRead(all, c.full, k) == FilesRead(files, c.full, k) {
      assert all[..k + 1] == files[..k + 1];
    }
    if !c.full {
      LoadConcat(Zero(|c.shape|), Chain(files), recs);
    }
  }

  /** After a dump of `m`, the loaded records agree with `m` on tracked words. */
  lemma DumpRebuilds(c: Config, m: Memory, base: Memory, mode: Mode)
    requires ValidConfig(c) && SameShape(m, c.shape, c.Tables())
    requires UpToDate(c, m, base, mode)
    ensures PagesFit(m, c.Leaves()) && AllFit(ScanVisits(m, c.Leaves(), mode).1, |m|)
    ensures Rebuilds(c, Load(base, ScanVisits(m, c.Leaves(), mode).1), m)
    ensures Rebuilds(c, ScanVisits(m, c.Leaves(), mode).0, m)
  {
    hide Visits, Reads, Load, ScanVisits;
    ShapeFacts(c, m);
    DumpFits(m, c.Leaves(), mode, c.Tables());
    forall w | w in c.tracked
      ensures Similar(c.Tables(), w, At(Load(base, ScanVisits(m, c.Leaves(), mode).1), w), At(m, w))
    {
      DumpedWord(m, base, c.Leaves(), mode, c.Tables(), w);
    }
    forall w | w in c.tracked ensures Similar(c.Tables(), w, At(ScanVisits(m, c.Leaves(), mode).0, w), At(m, w)) {
      if w !in c.Tables() {
        ScanTouches(m, c.Leaves(), mode, w);
      }
    }
  }

  /** A full checkpoint saves a flagged leaf word bit for bit. */
  lemma LeafRestored(c: Config, m: Memory, v: Visit)
    requires ValidConfig(c) && SameShape(m, c.shape, c.Tables())
    requires UpToDate(c, m, Zero(|c.shape|), ModeOf(true, 0))
    requires PagesFit(m, c.Leaves()) && AllFit(ScanVisits(m, c.Leaves(), ModeOf(true, 0)).1, |m|)
    requires v in c.Leaves() && Flagged(At(m, v.loc), ModeOf(true, 0))
    ensures At(Load(Zero(|c.shape|), ScanVisits(m, c.Leaves(), ModeOf(true, 0)).1), v.loc) == At(m, v.loc)
  {
    hide Visits, Reads, Load, ScanVisits;
    ShapeFacts(c, m);
    assert LeafShape(c, m, v);
    assert Pending(m, c.Leaves(), ModeOf(true, 0), v.loc);
    DumpedWord(m, Zero(|c.shape|), c.Leaves(), ModeOf(true, 0), {}, v.loc);
  }

  /** A full checkpoint restores the ACCESSED bits it was selected by, so the
      restarted machine selects every page again. */
  lemma FullImageReady(c: Config, m: Memory)
    requires ValidConfig(c) && c.full && SameShape(m, c.shape, c.Tables())
    requires UpToDate(c, m, Zero(|c.shape|), ModeOf(true, 0))
    requires PagesFit(m, c.Leaves()) && AllFit(ScanVisits(m, c.Leaves(), ModeOf(true, 0)).1, |m|)
    ensures var img := Load(Zero(|c.shape|), ScanVisits(m, c.Leaves(), ModeOf(true, 0)).1);
            UpToDate(c, img, Zero(|c.shape|), ModeOf(true, 0))
  {
    hide Visits, Reads, Load, ScanVisits;
    var mode, zero := ModeOf(true, 0), Zero(|c.shape|);
    var img := Load(zero, ScanVisits(m, c.Leaves(), mode).1);
    ShapeFacts(c, m);
    DumpRebuilds(c, m, zero, mode);
    forall w | w in c.tracked
      ensures Similar(c.Tables(), w, At(zero, w), At(img, w)) || Pending(img, c.Leaves(), mode, w)
    {
      if Pending(m, c.Leaves(), mode, w) {
        var v :| v in c.Leaves() && Covers(m, v, w) && Flagged(At(m, v.loc), mode);
        LeafRestored(c, m, v);
        assert Covers(img, v, w);
      } else {
        assert Similar(c.Tables(), w, At(img, w), At(m, w));
      }
    }
  }

  lemma BaseEmpty(c: Config)
    ensures Base(c, []) == Zero(|c.shape|)
  {}

  lemma DumpKeeps(c: Config, s: State, t: State)
    requires ValidConfig(c) && Inv(c, s) && Step(c, Dump, s, t)
    ensures Inv(c, t)
  {
    hide Visits, Reads, Load, ScanVisits, Chain, FilesRead;
    ShapeFacts(c, s.mem);
    var mode, n := ModeOf(c.full, s.confirmed), |s.files|;
    var r := ScanVisits(s.mem, c.Leaves(), mode);
    BaseEmpty(c);
    DumpRebuilds(c, s.mem, Base(c, s.files), mode);
    NextImage(c, s.files, r.1);
    assert SameShape(r.0, c.shape, c.Tables());
    if c.full {
      assert mode == ModeOf(true, 0);
      FullImageReady(c, s.mem);
      forall w: nat | w < |r.0| ensures r.0[w] == s.mem[w] {
        ScanTouches(s.mem, c.Leaves(), mode, w);
      }
      assert r.0 == s.mem;
    } else {
      var base := Load(Base(c, s.files), r.1);
      forall w | w in c.tracked ensures Similar(c.Tables(), w, At(base, w), At(r.0, w)) {
        assert Similar(c.Tables(), w, At(base, w), At(s.mem, w));
        assert Similar(c.Tables(), w, At(r.0, w), At(s.mem, w));
      }
    }
    forall k | 0 <= k < |t.files| ensures Saved(c, t.files, t.snaps[k], k) {
      if k < n {
        assert Saved(c, s.files, s.snaps[k], k);
      }
    }
  }

  lemma RestartKeeps(c: Config, s: State, t: State)
    requires ValidConfig(c) && Inv(c, s) && Step(c, Restart, s, t)
    ensures Inv(c, t)
    ensures Rebuilds(c, t.mem, s.snaps[s.confirmed - 1])
  {
    hide Visits, Reads, Load, ScanVisits, Chain;
    var k := s.confirmed - 1;
    assert Saved(c, s.files, s.snaps[k], k);
    assert forall w :: w in c.Tables() ==> Similar(c.Tables(), w, At(t.mem, w), At(s.snaps[k], w));
    assert SameShape(t.mem, c.shape, c.Tables());
    assert t.files[..k + 1] == t.files == s.files[..k + 1];
    forall j | 0 <= j < |t.files| ensures Saved(c, t.files, t.snaps[j], j) {
      assert Saved(c, s.files, s.snaps[j], j);
      assert t.files[..j + 1] == s.files[..j + 1];
    }
    if !c.full {
      assert Base(c, t.files) == t.mem;
    }
  }

  lemma BootReady(c: Config, s: State)
    requires ValidConfig(c) && Boot(c, s)
    ensures Inv(c, s)
  {}

  // ------------------------------------------------------------ whole runs

  /** A run: states and the events between them. */
  ghost predicate IsRun(c: Config, states: seq<State>, events: seq<Event>) {
    && |states| == |events| + 1
    && Boot(c, states[0])
    && forall i :: 0 <= i < |events| ==> Step(c, events[i], states[i], states[i + 1])
  }

  lemma {:induction false} RunInv(c: Config, states: seq<State>, events: seq<Event>, i: nat)
    requires ValidConfig(c) && IsRun(c, states, events) && i < |states|
    ensures |states| == |events| + 1 && Inv(c, states[i])
  {
    if i == 0 {
      BootReady(c, states[0]);
    } else {
      RunInv(c, states, events, i - 1);
      hide Inv;
      var s, t := states[i - 1], states[i];
      assert Step(c, events[i - 1], s, t);
      match events[i - 1]
      case Run => RunKeeps(c, s, t);
      case Dump => DumpKeeps(c, s, t);
      case Commit => CommitKeeps(c, s, t);
      case Restart => RestartKeeps(c, s, t);
    }
  }

  lemma CommitKeeps(c: Config, s: State, t: State)
    requires Inv(c, s) && Step(c, Commit, s, t)
    ensures Inv(c, t)
  {
  }

  /** Snapshot k of a reachable state is memory at an earlier dump number k. */
  lemma {:induction false} SnapIsDump(c: Config, states: seq<State>, events: seq<Event>, i: nat, k: nat)
    returns (d: nat)
    requires ValidConfig(c) && IsRun(c, states, events) && i < |states|
    requires k < |states[i].files|
    ensures |states[i].snaps| == |states[i].files|
    ensures d < i && events[d] == Dump && states[d].confirmed == k && states[d].mem == states[i].snaps[k]
  {
    hide *;
    RunInv(c, states, events, i);
    SnapCount(c, states[i]);
    if i > 0 {
      RunInv(c, states, events, i - 1);
      RunStep(c, states, events, i - 1);
      StepSnaps(c, events[i - 1], states[i - 1], states[i], k);
      if k < |states[i - 1].files| {
        d := SnapIsDump(c, states, events, i - 1, k);
      } else {
        d := i - 1;
      }
    } else {
      BootSnaps(c, states, events);
    }
  }

  lemma SnapCount(c: Config, s: State)
    requires Inv(c, s)
    ensures |s.snaps| == |s.files|
  {
  }

  lemma RunStep(c: Config, states: seq<State>, events: seq<Event>, i: nat)
    requires IsRun(c, states, events) && i < |events|
    ensures i + 1 < |states| == |events| + 1 && Step(c, events[i], states[i], states[i + 1])
  {
  }

  lemma BootSnaps(c: Config, states: seq<State>, events: seq<Event>)
    requires IsRun(c, states, events)
    ensures states[0].files == []
  {
  }

  /** A step keeps the old snapshots it does not drop and a dump adds memory as it is. */
  lemma StepSnaps(c: Config, e: Event, s: State, t: State, k: nat)
    requires Inv(c, s) && Step(c, e, s, t) && k < |t.files|
    ensures |s.snaps| == |s.files| && |t.snaps| == |t.files|
    ensures k < |s.files| ==> t.snaps[k] == s.snaps[k]
    ensures k >= |s.files| ==> e == Dump && k == s.confirmed && t.snaps[k] == s.mem
  {
    hide Visits, ScanVisits, Load, UpToDate, Saved, Base, Image;
  }

  /** Over every run of guest execution, dumps, commits and restarts (a crash
      between dump and commit included), a restart brings back every tracked
      word as it was when the last announced checkpoint was dumped, up to
      ACCESSED and DIRTY bits of page-table words. */
  lemma RestartRestores(c: Config, states: seq<State>, events: seq<Event>, i: nat) returns (d: nat)
    requires ValidConfig(c) && IsRun(c, states, events)
    requires i < |events| && events[i] == Restart
    ensures d < i && events[d] == Dump && states[d].confirmed == states[i].confirmed - 1
    ensures Rebuilds(c, states[i + 1].mem, states[d].mem)
    ensures Inv(c, states[i + 1])
  {
    RunInv(c, states, events, i);
    assert Step(c, events[i], states[i], states[i + 1]);
    RestartKeeps(c, states[i], states[i + 1]);
    d := SnapIsDump(c, states, events, i, states[i].confirmed - 1);
  }
}
