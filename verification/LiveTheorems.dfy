/** What the migration step system guarantees, and exactly when. */
module LiveTheorems {
  import opened Pte
  import opened Scan
  import opened FrozenScan
  import opened Regions
  import opened Checkpoints
  import opened LiveMigration

  /** Some event leads from s to t. */
  ghost predicate Next(g: Migration, s: Live, t: Live) {
    exists e :: LiveMigration.Step(g, e, s, t)
  }

  ghost predicate IsPath(g: Migration, path: seq<Live>) {
    path != [] && forall i :: 0 <= i < |path| - 1 ==> Next(g, path[i], path[i + 1])
  }

  ghost predicate Reaches(g: Migration, s: Live, t: Live) {
    exists path :: IsPath(g, path) && path[0] == s && path[|path| - 1] == t
  }

  lemma ReachesSelf(g: Migration, s: Live)
    ensures Reaches(g, s, s)
  {
    var path := [s];
    assert IsPath(g, path) && path[0] == s;
  }

  lemma ReachesCons(g: Migration, s: Live, t: Live, u: Live)
    requires Next(g, s, t) && Reaches(g, t, u)
    ensures Reaches(g, s, u)
  {
    var path :| IsPath(g, path) && path[0] == t && path[|path| - 1] == u;
    var longer := [s] + path;
    forall i | 0 <= i < |longer| - 1 ensures Next(g, longer[i], longer[i + 1]) {
      if i > 0 { assert longer[i] == path[i - 1] && longer[i + 1] == path[i]; }
    }
    assert IsPath(g, longer) && longer[0] == s && longer[|longer| - 1] == u;
  }

  lemma PathStep(g: Migration, path: seq<Live>, i: nat)
    requires IsPath(g, path) && i + 1 < |path|
    ensures Next(g, path[i], path[i + 1])
  {}

  // ------------------------------------------------------------ safety

  lemma StepKeeps(g: Migration, s: Live, t: Live)
    requires ValidConfig(g.c) && LiveMigration.Inv(g, s) && Next(g, s, t) && Ready(g, s.phase)
    ensures LiveMigration.Inv(g, t) && Ready(g, t.phase)
  {
    hide Visits, Reads, Healthy, Safe, Overrunning, Lookup;
    var e :| LiveMigration.Step(g, e, s, t);
    match e
    case GuestRun => LiveMigration.RunKeeps(g, s, t);
    case Test => TestKeeps(g, s, t);
    case Enqueue => EnqueueKeeps(g, s, t);
    case Copy(i) => CopyKeeps(g, s, t, i);
    case Drop(_) =>
    case _ => PhaseKeeps(g, e, s, t);
  }

  lemma {:induction false} PathKeeps(g: Migration, path: seq<Live>, i: nat)
    requires ValidConfig(g.c) && IsPath(g, path) && i < |path|
    requires LiveMigration.Inv(g, path[0]) && Ready(g, path[0].phase)
    ensures LiveMigration.Inv(g, path[i])
    ensures Ready(g, path[i].phase)
  {
    hide *;
    if i > 0 {
      PathStep(g, path, i - 1);
      PathKeeps(g, path, i - 1);
      StepKeeps(g, path[i - 1], path[i]);
    }
  }

  /** Every finished run was free of faults and left the destination equal to the
      frozen source on all tracked words. */
  ghost predicate Delivers(g: Migration, s: Live) {
    forall t :: Reaches(g, s, t) && t.phase == Done ==> Delivered(g, t)
  }

  ghost predicate Delivered(g: Migration, t: Live) {
    !t.fault && Rebuilds(g.c, t.dest, t.mem)
  }

  /** Each stale tracked word has a flagged leaf whose page lies in a region, and no
      leaf the scan will pick leaves its region. */
  ghost predicate OnTheWay(g: Migration, s: Live) {
    && (forall w :: w in g.c.tracked ==> Similar(g.Tables(), w, At(s.dest, w), At(s.mem, w)) || Awaited(g, s, w))
    && forall j: nat :: Picked(g, s, j) ==> !Overrunning(g, g.Leaves()[j])
  }

  /** Live (first == Scanning) or cold incremental (first == FinalScan) migration. */
  lemma MigrationDelivers(g: Migration, s: Live, first: Phase)
    requires ValidConfig(g.c) && first in {Scanning, FinalScan} && Fresh(g, s, first)
    requires Ready(g, first) && OnTheWay(g, s)
    ensures Delivers(g, s)
    ensures forall t :: Reaches(g, s, t) ==> t.round <= MIG_ITERS
  {
    hide Visits, Reads, Awaited, Picked, Overrunning, Lookup, OnTheWay, Fresh, LiveMigration.Inv, Ready;
    FreshInv(g, s, first);
    forall t | Reaches(g, s, t) ensures t.round <= MIG_ITERS && (t.phase == Done ==> Delivered(g, t)) {
      var path :| IsPath(g, path) && path[0] == s && path[|path| - 1] == t;
      PathKeeps(g, path, |path| - 1);
      RoundsBounded(g, t);
      if t.phase == Done { DoneDelivered(g, t); }
    }
  }

  lemma RoundsBounded(g: Migration, t: Live)
    requires LiveMigration.Inv(g, t)
    ensures t.round <= MIG_ITERS
  {
    hide Visits, Lookup;
  }

  lemma FreshInv(g: Migration, s: Live, first: Phase)
    requires ValidConfig(g.c) && first in {Scanning, FinalScan} && Fresh(g, s, first)
    requires Ready(g, first) && OnTheWay(g, s)
    ensures LiveMigration.Inv(g, s) && Ready(g, s.phase)
  {
    hide Visits, Reads, Lookup, Narrow, Sends;
    forall w | w in g.c.tracked ensures Safe(g, s, w) {
      if first == Scanning && Awaited(g, s, w) {
        var j: nat :| Picked(g, s, j) && Sends(g, g.Leaves()[j], w);
        var i := FirstPick(g, s, j);
        FirstSends(g, i, j, w);
      }
    }
  }

  lemma DoneDelivered(g: Migration, t: Live)
    requires ValidConfig(g.c) && LiveMigration.Inv(g, t) && t.phase == Done
    ensures Delivered(g, t)
  {
    hide Visits, Reads, Lookup;
    forall w | w in g.c.tracked ensures Similar(g.Tables(), w, At(t.dest, w), At(t.mem, w)) {
      assert Safe(g, t, w);
    }
  }

  // ------------------------------------------------------------ necessity

  /** Nothing on its way will bring word `w` to the destination. */
  ghost predicate Lost(g: Migration, s: Live, w: nat) {
    && w in g.c.tracked && !Similar(g.Tables(), w, At(s.dest, w), At(s.mem, w))
    && w !in s.queue && (s.hand != [] ==> !Sends(g, s.hand[0], w)) && !Awaited(g, s, w)
  }

  /** A request that the adapter will refuse is in hand or will be picked. */
  ghost predicate FaultAhead(g: Migration, s: Live) {
    || (s.hand != [] && Overrunning(g, s.hand[0]))
    || (Frozen(s.phase) && exists j: nat :: Picked(g, s, j) && Overrunning(g, g.Leaves()[j]))
  }

  ghost predicate Doomed(g: Migration, s: Live, w: nat) {
    s.fault || FaultAhead(g, s) || Lost(g, s, w)
  }

  function Rank(p: Phase): nat {
    match p
    case Scanning => 5
    case Copying => 4
    case Stopping => 3
    case FinalScan => 2
    case FinalCopy => 1
    case Done => 0
  }

  /** The events of a migration whose guest stays idle come to an end. */
  ghost predicate Closer(g: Migration, s: Live, t: Live) {
    || s.round < t.round <= MIG_ITERS
    || (s.round == t.round && Rank(t.phase) < Rank(s.phase))
    || (s.round == t.round && t.phase == s.phase && s.pos < t.pos <= |g.Leaves()|)
    || (s.round == t.round && t.phase == s.phase && s.pos == t.pos && |s.hand| == 0 && |t.hand| == 1)
    || (s.round == t.round && t.phase == s.phase && s.pos == t.pos && |s.hand| == |t.hand| && |t.queue| < |s.queue|)
  }

  /** The next event of a migration whose guest stays idle. */
  ghost function IdleEvent(g: Migration, s: Live): LiveMigration.Event {
    if s.hand != [] then Enqueue
    else match s.phase
         case Scanning => if s.pos < |g.Leaves()| then Test else EndScan
         case FinalScan => if s.pos < |g.Leaves()| then Test else EndScan
         case Copying => if s.queue != [] then Copy(0) else EndCopy
         case FinalCopy => if s.queue != [] then Copy(0) else EndCopy
         case _ => Freeze
  }

  lemma IdleStep(g: Migration, s: Live) returns (t: Live)
    requires ValidConfig(g.c) && Healthy(g, s) && s.phase != Done
    ensures LiveMigration.Step(g, IdleEvent(g, s), s, t) && Healthy(g, t) && Closer(g, s, t)
  {
    hide Visits, Reads, Lookup;
    match IdleEvent(g, s) {
      case Test =>
        LeafFacts(g, s, s.pos);
        var v := g.Leaves()[s.pos];
        t := if Flagged(s.mem[v.loc], g.mode) then s.(mem := ClearLeaf(s.mem, v, g.mode), hand := [v])
             else s.(pos := s.pos + 1);
      case Enqueue => t := Enqueued(g, s);
      case Copy(_) =>
        assert s.queue[0] in s.queue;
        t := s.(dest := s.dest[s.queue[0] := s.mem[s.queue[0]]], queue := Unqueued(s.queue, 0));
      case EndScan =>
        t := s.(phase := if s.phase == FinalScan then FinalCopy else if s.queue == [] then Stopping else Copying);
      case EndCopy =>
        t := if s.phase == FinalCopy then s.(phase := Done)
             else s.(round := s.round + 1, pos := 0, phase := if s.round + 1 == MIG_ITERS then Stopping else Scanning);
      case Freeze => t := s.(phase := FinalScan, pos := 0);
    }
    HealthKept(g, IdleEvent(g, s), s, t);
  }

  /** Without the guest nothing gets picked that was not picked before. */
  lemma PickedBefore(g: Migration, e: LiveMigration.Event, s: Live, t: Live, j: nat)
    requires ValidConfig(g.c) && Healthy(g, s) && LiveMigration.Step(g, e, s, t) && e != GuestRun && Picked(g, t, j)
    ensures Picked(g, s, j)
  {
    hide Visits, Reads, Lookup;
    if e == Test { WasPicked(g, s, t, j); }
    if e == Enqueue { LeafFacts(g, s, s.pos); }
  }

  lemma LostStays(g: Migration, s: Live, t: Live, w: nat)
    requires ValidConfig(g.c) && Healthy(g, s) && LiveMigration.Step(g, IdleEvent(g, s), s, t) && Lost(g, s, w)
    ensures t.fault || Lost(g, t, w)
  {
    hide Visits, Reads, Lookup;
    forall j: nat | Picked(g, t, j) ensures !Sends(g, g.Leaves()[j], w) {
      PickedBefore(g, IdleEvent(g, s), s, t, j);
    }
    match IdleEvent(g, s)
    case Test =>
      LeafFacts(g, s, s.pos);
      if t.hand != [] { assert Picked(g, s, s.pos); }
    case Enqueue => LeafFacts(g, s, s.pos);
    case Copy(_) => UnqueuedWords(s.queue, 0);
    case _ =>
  }

  lemma FaultStays(g: Migration, s: Live, t: Live)
    requires ValidConfig(g.c) && Healthy(g, s) && LiveMigration.Step(g, IdleEvent(g, s), s, t) && FaultAhead(g, s)
    ensures t.fault || FaultAhead(g, t)
  {
    hide Visits, Reads, Lookup;
    if s.hand != [] {
      LeafFacts(g, s, s.pos);
      if !Overrunning(g, s.hand[0]) {
        var j: nat :| Picked(g, s, j) && Overrunning(g, g.Leaves()[j]);
        assert Picked(g, t, j);
      }
    } else {
      var j: nat :| Picked(g, s, j) && Overrunning(g, g.Leaves()[j]);
      assert IdleEvent(g, s) == Test;
      StillPicked(g, s, t, j);
    }
  }

  /** From a doomed state the migration can finish and leave something behind. */
  lemma {:induction false} LostForever(g: Migration, s: Live, w: nat) returns (t: Live)
    requires ValidConfig(g.c) && Healthy(g, s) && Doomed(g, s, w)
    ensures Reaches(g, s, t) && t.phase == Done && !Delivered(g, t)
    decreases MIG_ITERS - s.round, Rank(s.phase), |g.Leaves()| - s.pos, 1 - |s.hand|, |s.queue|
  {
    if s.phase == Done {
      hide Visits, Reads, Lookup;
      ReachesSelf(g, s);
      t := s;
    } else {
      hide *;
      HandSize(g, s);
      var n := IdleStep(g, s);
      DoomStays(g, s, n, w);
      CloserBy(g, s, n);
      HandSize(g, n);
      t := LostForever(g, n, w);
      NextBy(g, IdleEvent(g, s), s, n);
      ReachesCons(g, s, n, t);
    }
  }

  lemma NextBy(g: Migration, e: LiveMigration.Event, s: Live, t: Live)
    requires LiveMigration.Step(g, e, s, t)
    ensures Next(g, s, t)
  {}

  lemma CloserBy(g: Migration, s: Live, t: Live)
    requires Closer(g, s, t)
    ensures s.round < t.round <= MIG_ITERS
            || (s.round == t.round && Rank(t.phase) < Rank(s.phase))
            || (s.round == t.round && t.phase == s.phase && s.pos < t.pos <= |g.Leaves()|)
            || (s.round == t.round && t.phase == s.phase && s.pos == t.pos && |s.hand| == 0 && |t.hand| == 1)
            || (s.round == t.round && t.phase == s.phase && s.pos == t.pos
                && |s.hand| == |t.hand| && |t.queue| < |s.queue|)
  {}

  lemma DoomStays(g: Migration, s: Live, t: Live, w: nat)
    requires ValidConfig(g.c) && Healthy(g, s) && LiveMigration.Step(g, IdleEvent(g, s), s, t) && Doomed(g, s, w)
    ensures Doomed(g, t, w)
  {
    hide LiveMigration.Step, Healthy, FaultAhead, Lost, IdleEvent, ValidConfig;
    FaultSticks(g, IdleEvent(g, s), s, t);
    if FaultAhead(g, s) {
      FaultStays(g, s, t);
    } else if Lost(g, s, w) {
      LostStays(g, s, t, w);
    }
  }

  lemma FaultSticks(g: Migration, e: LiveMigration.Event, s: Live, t: Live)
    requires LiveMigration.Step(g, e, s, t)
    ensures s.fault ==> t.fault
  {
    hide Visits, Lookup;
  }

  lemma HandSize(g: Migration, s: Live)
    requires Healthy(g, s)
    ensures |s.hand| <= 1 && s.pos <= |g.Leaves()| && s.round <= MIG_ITERS
  {}

  lemma FreshHealthy(g: Migration, s: Live, first: Phase)
    requires first in {Scanning, FinalScan} && Fresh(g, s, first)
    ensures Healthy(g, s)
  {}

  /** A tracked word that is neither equal at the destination nor below a flagged leaf
      whose page lies in a region keeps any migration from delivering, whatever the
      tables look like. */
  lemma StaleNeverDelivers(g: Migration, s: Live, first: Phase, w: nat)
    requires ValidConfig(g.c) && first in {Scanning, FinalScan} && Fresh(g, s, first)
    requires w in g.c.tracked && !Similar(g.Tables(), w, At(s.dest, w), At(s.mem, w)) && !Awaited(g, s, w)
    ensures !Delivers(g, s)
  {
    hide Visits, Reads, Lookup, Healthy, Reaches, Delivered, Awaited;
    FreshHealthy(g, s, first);
    var t := LostForever(g, s, w);
  }

  /** The exact condition: a fresh migration delivers if and only if every stale
      tracked word has a flagged leaf whose page lies in a region and no picked leaf
      overruns its region. For a cold migration this holds of all tables and all
      regions. */
  lemma DeliversIffOnTheWay(g: Migration, s: Live, first: Phase)
    requires ValidConfig(g.c) && first in {Scanning, FinalScan} && Fresh(g, s, first) && Ready(g, first)
    ensures Delivers(g, s) <==> OnTheWay(g, s)
  {
    hide Visits, Reads, Lookup, Awaited, Delivers;
    if first == Scanning { NothingOverruns(g, s); }
    if OnTheWay(g, s) {
      MigrationDelivers(g, s, first);
    } else if w :| w in g.c.tracked && !Similar(g.Tables(), w, At(s.dest, w), At(s.mem, w)) && !Awaited(g, s, w) {
      StaleNeverDelivers(g, s, first, w);
    } else {
      var j: nat :| Picked(g, s, j) && Overrunning(g, g.Leaves()[j]);
      Overrun(g, s, j);
    }
  }

  lemma Overrun(g: Migration, s: Live, j: nat)
    requires ValidConfig(g.c) && Fresh(g, s, FinalScan) && Picked(g, s, j) && Overrunning(g, g.Leaves()[j])
    ensures !Delivers(g, s)
  {
    hide Visits, Reads, Lookup, Healthy, Reaches, Delivered;
    FreshHealthy(g, s, FinalScan);
    assert FaultAhead(g, s);
    var t := LostForever(g, s, 0);
  }

  /** With all pages registered the region lookup is no hindrance. */
  lemma RegisteredOnTheWay(g: Migration, s: Live, first: Phase)
    requires ValidConfig(g.c) && first in {Scanning, FinalScan} && Fresh(g, s, first) && AllRegistered(g)
    ensures OnTheWay(g, s) <==> UpToDate(g.c, s.mem, s.dest, g.mode)
  {
    hide Visits, Reads, Lookup;
    ShapeFacts(g.c, s.mem);
    forall w | w in g.c.tracked ensures Awaited(g, s, w) <==> Pending(s.mem, g.Leaves(), g.mode, w) {
      RegisteredWord(g, s, first, w);
    }
    forall j: nat | Picked(g, s, j) ensures !Overrunning(g, g.Leaves()[j]) {
      assert g.Leaves()[j] in g.Leaves();
    }
  }

  lemma RegisteredWord(g: Migration, s: Live, first: Phase, w: nat)
    requires ValidConfig(g.c) && first in {Scanning, FinalScan} && Fresh(g, s, first) && AllRegistered(g)
    ensures Awaited(g, s, w) <==> Pending(s.mem, g.Leaves(), g.mode, w)
  {
    hide Visits, Reads, Lookup, Fresh, Covers, Picked, Sends, Healthy;
    FreshHealthy(g, s, first);
    if Awaited(g, s, w) { AwaitedLeaf(g, s, w); }
    if Pending(s.mem, g.Leaves(), g.mode, w) {
      var v :| v in g.Leaves() && Covers(s.mem, v, w) && Flagged(At(s.mem, v.loc), g.mode);
      var j: nat :| j < |g.Leaves()| && g.Leaves()[j] == v;
      PendingLeaf(g, s, first, j, w);
    }
  }

  lemma AwaitedLeaf(g: Migration, s: Live, w: nat)
    requires ValidConfig(g.c) && Healthy(g, s) && Awaited(g, s, w)
    ensures Pending(s.mem, g.Leaves(), g.mode, w)
  {
    hide Visits, Reads, Lookup;
    var j: nat :| Picked(g, s, j) && Sends(g, g.Leaves()[j], w);
    LeafFacts(g, s, j);
    assert g.Leaves()[j] in g.Leaves() && Covers(s.mem, g.Leaves()[j], w);
  }

  lemma PendingLeaf(g: Migration, s: Live, first: Phase, j: nat, w: nat)
    requires ValidConfig(g.c) && first in {Scanning, FinalScan} && Fresh(g, s, first) && AllRegistered(g)
    requires j < |g.Leaves()| && Covers(s.mem, g.Leaves()[j], w) && Flagged(At(s.mem, g.Leaves()[j].loc), g.mode)
    ensures Awaited(g, s, w)
  {
    hide Visits, Reads, Lookup;
    FreshHealthy(g, s, first);
    LeafFacts(g, s, j);
    var i := j;
    if first == FinalScan { i := FirstPick(g, s, j); }
    assert g.Leaves()[i] in g.Leaves();
    WiderCovers(g.c.shape, g.Leaves()[j], g.Leaves()[i], w);
    assert Picked(g, s, i) && Sends(g, g.Leaves()[i], w);
  }

  lemma NothingOverruns(g: Migration, s: Live)
    requires AllRegistered(g)
    ensures forall j: nat :: Picked(g, s, j) ==> !Overrunning(g, g.Leaves()[j])
  {
    hide Visits, Lookup;
    forall j: nat | Picked(g, s, j) ensures !Overrunning(g, g.Leaves()[j]) {
      assert g.Leaves()[j] in g.Leaves();
    }
  }

  // ------------------------------------------------------------ unregistered words

  /** No page that holds word `w` starts in a region. */
  ghost predicate Unlisted(g: Migration, w: nat) {
    forall v :: v in g.Leaves() && Covers(g.c.shape, v, w) ==> !Listed(g.regions, PageAddr(g.c.shape, v))
  }

  /** Such a word is never queued and keeps its value at the destination. */
  ghost predicate Untouched(g: Migration, s: Live, d: Memory, w: nat) {
    Healthy(g, s) && w !in s.queue && At(s.dest, w) == At(d, w)
  }

  lemma UntouchedKept(g: Migration, s: Live, t: Live, d: Memory, w: nat)
    requires ValidConfig(g.c) && Unlisted(g, w) && Untouched(g, s, d, w) && Next(g, s, t)
    ensures Untouched(g, t, d, w)
  {
    hide Visits, Reads, Lookup;
    var e :| LiveMigration.Step(g, e, s, t);
    HealthKept(g, e, s, t);
    match e
    case Enqueue =>
      LeafFacts(g, s, s.pos);
      assert s.hand[0] in g.Leaves();
    case Copy(i) => UnqueuedWords(s.queue, i);
    case Drop(i) => UnqueuedWords(s.queue, i);
    case _ =>
  }

  lemma {:induction false} UntouchedPath(g: Migration, path: seq<Live>, i: nat, d: Memory, w: nat)
    requires ValidConfig(g.c) && IsPath(g, path) && i < |path| && Unlisted(g, w) && Untouched(g, path[0], d, w)
    ensures Untouched(g, path[i], d, w)
  {
    hide *;
    if i > 0 {
      PathStep(g, path, i - 1);
      UntouchedPath(g, path, i - 1, d, w);
      UntouchedKept(g, path[i - 1], path[i], d, w);
    }
  }

  /** A page-table word outside all registered pages never reaches the destination: no
      run at all delivers. */
  lemma UnlistedTableWord(g: Migration, s: Live, first: Phase, w: nat, t: Live)
    requires ValidConfig(g.c) && first in {Scanning, FinalScan} && Fresh(g, s, first)
    requires w in g.Tables() && Unlisted(g, w) && Shape(At(s.dest, w)) != Shape(At(g.c.shape, w))
    requires Reaches(g, s, t)
    ensures !Delivered(g, t)
  {
    hide Visits, Reads, Lookup, Unlisted;
    FreshHealthy(g, s, first);
    var path :| IsPath(g, path) && path[0] == s && path[|path| - 1] == t;
    UntouchedPath(g, path, |path| - 1, s.dest, w);
    assert Shape(At(t.mem, w)) == Shape(At(g.c.shape, w));
    assert w in g.c.tracked;
  }

  // ------------------------------------------------------------ aliased entries

  /** The guest writes word `w` below leaf `v`, so that it differs from `d`, and
      hardware marks the entry. */
  function Written(m: Memory, v: Visit, w: nat, d: Word): (n: Memory)
    requires v.loc < |m| && w < |m| && w != v.loc
    ensures |n| == |m| && At(n, w) != d
    ensures forall x :: x != w && x != v.loc ==> At(n, x) == At(m, x)
    ensures At(n, v.loc) == At(m, v.loc).(accessed := true, dirty := true)
  {
    m[w := d.(present := !d.present)][v.loc := m[v.loc].(accessed := true, dirty := true)]
  }

  /** No leaf above word `w` is flagged, and none of its pages is on its way. */
  ghost predicate Quiet(g: Migration, s: Live, w: nat) {
    && s.phase == Scanning && Healthy(g, s) && w !in s.queue
    && (s.hand != [] ==> !Covers(g.c.shape, s.hand[0], w))
    && forall v :: v in g.Leaves() && Covers(g.c.shape, v, w) ==> !Flagged(At(s.mem, v.loc), g.mode)
  }

  lemma QuietStep(g: Migration, s: Live, w: nat, b: nat) returns (t: Live)
    requires ValidConfig(g.c) && Quiet(g, s, w) && s.pos <= b <= |g.Leaves()| && (s.pos < b || s.hand != [])
    requires s.pos == b ==> s.hand == []
    ensures Next(g, s, t) && Quiet(g, t, w) && t.pos <= b && (t.pos == b ==> t.hand == [])
    ensures t.pos > s.pos || (t.pos == s.pos && |t.hand| > |s.hand|)
  {
    hide Visits, Reads, Lookup;
    t := IdleStep(g, s);
    NextBy(g, IdleEvent(g, s), s, t);
    LeafFacts(g, s, s.pos);
    assert g.Leaves()[s.pos] in g.Leaves();
  }

  /** While the guest stays idle the scan gets to position `b` and all stays quiet. */
  lemma {:induction false} QuietScan(g: Migration, s: Live, w: nat, b: nat) returns (u: Live)
    requires ValidConfig(g.c) && Quiet(g, s, w) && s.pos <= b <= |g.Leaves()| && (s.pos == b ==> s.hand == [])
    ensures Quiet(g, u, w) && u.pos == b && u.hand == []
    ensures forall x :: Reaches(g, u, x) ==> Reaches(g, s, x)
    decreases b - s.pos, 1 - |s.hand|
  {
    hide *;
    if s.pos == b {
      u := s;
    } else {
      var t := QuietStep(g, s, w, b);
      QuietHand(g, s, w);
      QuietHand(g, t, w);
      u := QuietScan(g, t, w, b);
      forall x | Reaches(g, u, x) ensures Reaches(g, s, x) {
        ReachesCons(g, s, t, x);
      }
    }
  }

  lemma QuietHand(g: Migration, s: Live, w: nat)
    requires Quiet(g, s, w)
    ensures |s.hand| <= 1
  {}

  /** The guest writes below leaf `v` just before the scan clears the same entry as a
      4 KiB leaf: the write is neither flagged nor queued any more. */
  lemma WriteThenClear(g: Migration, u: Live, v: Visit, b: nat, w: nat) returns (t: Live)
    requires ValidConfig(g.c) && g.mode.clear && Quiet(g, u, w) && u.hand == [] && u.pos == b < |g.Leaves()|
    requires v in g.Leaves() && g.Leaves()[b] == Visit(v.loc, false)
    requires w in g.c.tracked && w !in g.Tables() && Covers(g.c.shape, v, w) && !Covers(g.c.shape, g.Leaves()[b], w)
    ensures Healthy(g, t) && Lost(g, t, w)
    ensures forall x :: Reaches(g, t, x) ==> Reaches(g, u, x)
  {
    hide Visits, Reads, Lookup, Reaches;
    LeafFacts(g, u, b);
    var m := u.(mem := Written(u.mem, v, w, At(u.dest, w)));
    assert Progress(g.c, u.mem, m.mem) by { assert Touched(g.c, m.mem, w); }
    assert LiveMigration.Step(g, GuestRun, u, m);
    HealthKept(g, GuestRun, u, m);
    t := m.(mem := ClearLeaf(m.mem, g.Leaves()[b], g.mode), hand := [g.Leaves()[b]]);
    assert LiveMigration.Step(g, Test, m, t);
    HealthKept(g, Test, m, t);
    forall j: nat | Picked(g, t, j) ensures !Sends(g, g.Leaves()[j], w) {
      LeafFacts(g, u, j);
      assert g.Leaves()[j] in g.Leaves();
      assert g.Leaves()[j].loc != v.loc;
      assert At(t.mem, g.Leaves()[j].loc) == At(u.mem, g.Leaves()[j].loc);
    }
    forall x | Reaches(g, t, x) ensures Reaches(g, u, x) {
      ReachesCons(g, m, t, x);
      ReachesCons(g, u, m, x);
    }
  }

  /** Nothing is flagged when a round starts: the write can be dropped. */
  lemma QuietRoundLoses(g: Migration, s: Live, v: Visit, b: nat, w: nat) returns (x: Live)
    requires ValidConfig(g.c) && g.mode.clear && Quiet(g, s, w) && s.pos == 0 && s.hand == []
    requires v in g.Leaves() && b < |g.Leaves()| && g.Leaves()[b] == Visit(v.loc, false)
    requires Datum(g, v, w) && !Covers(g.c.shape, g.Leaves()[b], w)
    ensures Reaches(g, s, x) && x.phase == Done && !Delivered(g, x)
  {
    hide Visits, Reads, Lookup, Reaches, Delivered, Healthy, Lost, Quiet;
    var u := QuietScan(g, s, w, b);
    var t := WriteThenClear(g, u, v, b, w);
    x := LostForever(g, t, w);
  }

  /** The first round of an idle guest: all visited leaves are clear, and something is
      queued or will be. */
  ghost predicate Sweeping(g: Migration, s: Live) {
    && Healthy(g, s) && s.round == 0 && s.phase in {Scanning, Copying}
    && (s.phase == Copying ==> s.pos == |g.Leaves()|)
    && (s.phase == Scanning ==>
          s.queue != [] || s.hand != [] || exists j :: s.pos <= j < |g.Leaves()| && LeafFlag(g, s, j))
    && (forall j :: 0 <= j < s.pos ==> !LeafFlag(g, s, j))
    && (s.hand != [] ==> !Flagged(At(s.mem, s.hand[0].loc), g.mode))
  }

  ghost predicate LeafFlag(g: Migration, s: Live, j: nat)
    requires j < |g.Leaves()|
  {
    Flagged(At(s.mem, g.Leaves()[j].loc), g.mode)
  }

  /** The second round starts and no leaf is flagged. */
  ghost predicate Swept(g: Migration, s: Live) {
    && Healthy(g, s) && s.phase == Scanning && s.pos == 0 && s.hand == [] && s.queue == []
    && forall j :: 0 <= j < |g.Leaves()| ==> !LeafFlag(g, s, j)
  }

  lemma SweepStep(g: Migration, s: Live) returns (t: Live)
    requires ValidConfig(g.c) && AllRegistered(g) && g.mode.clear && Sweeping(g, s)
    ensures Next(g, s, t) && (Swept(g, t) || (Sweeping(g, t) && Closer(g, s, t)))
  {
    hide Visits, Reads, Lookup, AllRegistered;
    t := IdleStep(g, s);
    NextBy(g, IdleEvent(g, s), s, t);
    forall j | 0 <= j < |g.Leaves()| ensures LeafFlag(g, t, j) ==> LeafFlag(g, s, j) {
      LeafFacts(g, s, j);
    }
    match IdleEvent(g, s)
    case Test =>
      LeafFacts(g, s, s.pos);
      if !LeafFlag(g, s, s.pos) && s.queue == [] {
        var j :| s.pos <= j < |g.Leaves()| && LeafFlag(g, s, j);
        assert LeafFlag(g, t, j);
      }
    case Enqueue => HandQueued(g, s);
    case _ =>
  }

  /** A registered page in hand makes the queue nonempty. */
  lemma HandQueued(g: Migration, s: Live)
    requires ValidConfig(g.c) && AllRegistered(g) && Healthy(g, s) && s.hand != []
    ensures Enqueued(g, s).queue != []
  {
    hide Visits, Reads, Lookup;
    LeafFacts(g, s, s.pos);
    assert g.Leaves()[s.pos] in g.Leaves();
  }

  lemma {:induction false} Sweep(g: Migration, s: Live) returns (u: Live)
    requires ValidConfig(g.c) && AllRegistered(g) && g.mode.clear && Sweeping(g, s)
    ensures Swept(g, u)
    ensures forall x :: Reaches(g, u, x) ==> Reaches(g, s, x)
    decreases MIG_ITERS - s.round, Rank(s.phase), |g.Leaves()| - s.pos, 1 - |s.hand|, |s.queue|
  {
    hide *;
    SweepSize(g, s);
    var t := SweepStep(g, s);
    if Swept(g, t) {
      u := t;
    } else {
      CloserBy(g, s, t);
      SweepSize(g, t);
      u := Sweep(g, t);
    }
    forall x | Reaches(g, u, x) ensures Reaches(g, s, x) {
      ReachesCons(g, s, t, x);
    }
  }

  lemma SweepSize(g: Migration, s: Live)
    requires Sweeping(g, s)
    ensures |s.hand| <= 1 && s.pos <= |g.Leaves()| && s.round <= MIG_ITERS
  {}

  /** An entry visited in both sizes, and a datum that only the wide visit sends: no
      clearing live migration delivers, whatever is flagged and whatever the destination
      holds. After an idle first round nothing is flagged any more, and a guest write
      between the two visits of the next round is dropped. */
  lemma AliasedWriteIsLost(g: Migration, s: Live, v: Visit, w: nat)
    requires ValidConfig(g.c) && AllRegistered(g) && g.mode.clear && Fresh(g, s, Scanning)
    requires v in g.Leaves() && Visit(v.loc, false) in g.Leaves()
    requires Datum(g, v, w) && !Covers(g.c.shape, Visit(v.loc, false), w)
    ensures !Delivers(g, s)
  {
    hide Visits, Reads, Lookup, Reaches, Delivered, AllRegistered, Datum, Covers;
    FreshHealthy(g, s, Scanning);
    var b: nat :| b < |g.Leaves()| && g.Leaves()[b] == Visit(v.loc, false);
    var u := s;
    if j: nat :| j < |g.Leaves()| && LeafFlag(g, s, j) {
      u := Sweep(g, s);
    }
    assert Swept(g, u);
    SweptQuiet(g, u, w);
    hide *;
    var x := QuietRoundLoses(g, u, v, b, w);
    NotDelivering(g, s, x);
  }

  lemma SweptQuiet(g: Migration, u: Live, w: nat)
    requires Swept(g, u)
    ensures Quiet(g, u, w) && u.pos == 0 && u.hand == []
  {
    hide Visits, Reads, Healthy, Covers;
    forall v | v in g.Leaves() && Covers(g.c.shape, v, w) ensures !Flagged(At(u.mem, v.loc), g.mode) {
      var j: nat :| j < |g.Leaves()| && g.Leaves()[j] == v;
      assert !LeafFlag(g, u, j);
    }
  }

  lemma NotDelivering(g: Migration, s: Live, x: Live)
    requires Reaches(g, s, x) && x.phase == Done && !Delivered(g, x)
    ensures !Delivers(g, s)
  {}

  /** With all memory registered, for every start: a cold migration delivers if and only
      if each tracked word is equal at the destination or below a leaf with the selected
      flag. A live one needs, and needs only, that and, if it clears bits, that no datum
      lies below an entry's 2 MiB visit and outside its 4 KiB visit. With DIRTY as the
      flag (no_checkpoint > 0) clean pages break either. */
  lemma DeliversIffUpToDate(g: Migration, s: Live, first: Phase)
    requires ValidConfig(g.c) && first in {Scanning, FinalScan} && Fresh(g, s, first) && AllRegistered(g)
    ensures Delivers(g, s) <==>
              UpToDate(g.c, s.mem, s.dest, g.mode) && (first == Scanning && g.mode.clear ==> Narrow(g))
  {
    hide Visits, Reads, Lookup, Awaited, Picked, Delivers, UpToDate, AllRegistered, Fresh;
    RegisteredOnTheWay(g, s, first);
    if Ready(g, first) {
      DeliversIffOnTheWay(g, s, first);
    } else {
      var v, w :| v in g.Leaves() && Visit(v.loc, false) in g.Leaves() && Datum(g, v, w)
                  && !Covers(g.c.shape, Visit(v.loc, false), w);
      AliasedWriteIsLost(g, s, v, w);
    }
  }
}
