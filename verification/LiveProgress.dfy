/** Every migration ends, however busy the guest is: a bound on the events that are
    not guest execution (uhyve-migration-rdma.c:770-821, 862-923). */
module LiveProgress {
  import opened Scan
  import opened Checkpoints
  import opened LiveMigration
  import opened LiveTheorems

  /** Tests, listing and the copies of all words of one leaf. */
  const LEAF_COST: nat := PAGE_WORDS * 512 + 2

  /** What scanning and sending `leaves` leaves costs at most. */
  function ScanCost(leaves: nat): nat {
    leaves * LEAF_COST
  }

  /** What is left once `round` rounds are over. */
  function After(leaves: nat, round: nat): nat
    decreases MIG_ITERS - round
  {
    if round >= MIG_ITERS then ScanCost(leaves) + 3 else ScanCost(leaves) + 2 + After(leaves, round + 1)
  }

  lemma {:induction false} AfterLeast(leaves: nat, round: nat)
    ensures After(leaves, round) >= ScanCost(leaves) + 3
    decreases MIG_ITERS - round
  {
    if round < MIG_ITERS { AfterLeast(leaves, round + 1); }
  }

  /** The events besides guest execution that a state leaves to happen, of `n` leaves. */
  function Cost(n: nat, s: Live): int {
    var left := ScanCost(if s.pos <= n then n - s.pos else 0) - |s.hand| + |s.queue|;
    match s.phase
    case Scanning => left + 2 + After(n, s.round + 1)
    case Copying => |s.queue| + 1 + After(n, s.round + 1)
    case Stopping => ScanCost(n) + 3
    case FinalScan => left + 2
    case FinalCopy => |s.queue| + 1
    case Done => 0
  }

  lemma ScanCostStep(n: nat)
    ensures ScanCost(n + 1) == ScanCost(n) + LEAF_COST > ScanCost(n)
  {}

  lemma CostNat(g: Migration, s: Live)
    requires Healthy(g, s)
    ensures Cost(|g.Leaves()|, s) >= 0
  {
    hide *;
    var n := |g.Leaves()|;
    PosBound(g, s);
    if s.hand != [] { ScanCostStep(n - s.pos - 1); }
    CostBound(n, s);
  }

  lemma PosBound(g: Migration, s: Live)
    requires Healthy(g, s)
    ensures |s.hand| <= 1 && s.pos <= |g.Leaves()| && (s.hand != [] ==> s.pos < |g.Leaves()|)
  {
    hide Visits;
  }

  lemma CostBound(n: nat, s: Live)
    requires |s.hand| <= 1 && s.pos <= n && (s.hand != [] ==> ScanCost(n - s.pos) > 0)
    ensures Cost(n, s) >= 0
  {
    hide ScanCost, After;
  }

  /** Each event but guest execution lowers the cost, which the guest cannot raise. */
  lemma StepCheaper(g: Migration, e: LiveMigration.Event, s: Live, t: Live)
    requires Healthy(g, s) && LiveMigration.Step(g, e, s, t)
    ensures if e == GuestRun then Cost(|g.Leaves()|, t) == Cost(|g.Leaves()|, s)
            else Cost(|g.Leaves()|, t) < Cost(|g.Leaves()|, s)
  {
    hide *;
    var n := |g.Leaves()|;
    PosBound(g, s);
    if s.pos < n { ScanCostStep(n - s.pos - 1); }
    NextRound(n, s.round + 1);
    AfterLeast(n, s.round + 1);
    Effect(g, e, s, t);
    EffectCheaper(n, e, s, t);
  }

  /** What an event does to the numbers that the cost depends on. */
  predicate Moved(n: nat, e: LiveMigration.Event, s: Live, t: Live) {
    match e
    case GuestRun => t == s.(mem := t.mem)
    case Test => s.phase in {Scanning, FinalScan} && s.hand == [] && s.pos < n
                 && ((t == s.(mem := t.mem, hand := t.hand) && |t.hand| == 1) || t == s.(pos := s.pos + 1))
    case Enqueue => s.phase in {Scanning, FinalScan} && |s.hand| == 1 && s.pos < n
                    && t.phase == s.phase && t.round == s.round && t.hand == []
                    && t.pos == s.pos + 1 && |t.queue| <= |s.queue| + PAGE_WORDS * 512
    case EndScan => s.hand == [] && s.pos == n
                    && (if s.phase == FinalScan then t == s.(phase := FinalCopy)
                        else s.phase == Scanning && t == s.(phase := if s.queue == [] then Stopping else Copying))
    case EndCopy => s.queue == []
                    && (if s.phase == FinalCopy then t == s.(phase := Done)
                        else s.phase == Copying && s.hand == [] && t == s.(round := s.round + 1, pos := 0,
                               phase := if s.round + 1 == MIG_ITERS then Stopping else Scanning))
    case Freeze => s.phase == Stopping && s.hand == [] && s.queue == [] && t == s.(phase := FinalScan, pos := 0)
    case _ => s.phase in {Copying, FinalCopy} && t.phase == s.phase && t.round == s.round && |t.queue| < |s.queue|
  }

  lemma Effect(g: Migration, e: LiveMigration.Event, s: Live, t: Live)
    requires Healthy(g, s) && LiveMigration.Step(g, e, s, t)
    ensures Moved(|g.Leaves()|, e, s, t) && (s.phase == Copying ==> s.round < MIG_ITERS)
  {
    hide Visits, Reads;
  }

  lemma EffectCheaper(n: nat, e: LiveMigration.Event, s: Live, t: Live)
    requires Moved(n, e, s, t) && s.pos <= n && (s.phase == Copying ==> s.round < MIG_ITERS)
    requires s.pos < n ==> ScanCost(n - s.pos) == ScanCost(n - s.pos - 1) + LEAF_COST
    requires After(n, s.round + 1)
             == if s.round + 1 < MIG_ITERS then ScanCost(n) + 2 + After(n, s.round + 2) else ScanCost(n) + 3
    requires After(n, s.round + 1) >= ScanCost(n) + 3
    ensures if e == GuestRun then Cost(n, t) == Cost(n, s) else Cost(n, t) < Cost(n, s)
  {
    hide ScanCost, After;
    ScanNothing();
  }

  lemma ScanNothing()
    ensures ScanCost(0) == 0
  {}

  lemma NextRound(n: nat, round: nat)
    ensures After(n, round) == if round < MIG_ITERS then ScanCost(n) + 2 + After(n, round + 1) else ScanCost(n) + 3
  {}

  // ------------------------------------------------------------ whole runs

  ghost predicate IsRun(g: Migration, es: seq<LiveMigration.Event>, ss: seq<Live>) {
    |ss| == |es| + 1 && forall i :: 0 <= i < |es| ==> LiveMigration.Step(g, es[i], ss[i], ss[i + 1])
  }

  /** The events besides guest execution. */
  function Moves(es: seq<LiveMigration.Event>, n: nat): nat
    requires n <= |es|
  {
    if n == 0 then 0 else Moves(es, n - 1) + if es[n - 1] == GuestRun then 0 else 1
  }

  lemma {:induction false} RunCheaper(g: Migration, es: seq<LiveMigration.Event>, ss: seq<Live>, n: nat)
    requires ValidConfig(g.c) && IsRun(g, es, ss) && n <= |es| && Healthy(g, ss[0])
    ensures n < |ss| && Healthy(g, ss[n])
    ensures Moves(es, n) + Cost(|g.Leaves()|, ss[n]) <= Cost(|g.Leaves()|, ss[0])
  {
    hide Healthy, Cost, LiveMigration.Step, ValidConfig, Visits;
    if n > 0 {
      RunCheaper(g, es, ss, n - 1);
      assert LiveMigration.Step(g, es[n - 1], ss[n - 1], ss[n - 1 + 1]);
      HealthKept(g, es[n - 1], ss[n - 1], ss[n]);
      StepCheaper(g, es[n - 1], ss[n - 1], ss[n]);
    }
  }

  /** A live migration takes at most five scans' worth of events besides guest
      execution, a cold one at most one. */
  lemma MigrationEnds(g: Migration, es: seq<LiveMigration.Event>, ss: seq<Live>, first: Phase)
    requires ValidConfig(g.c) && IsRun(g, es, ss) && first in {Scanning, FinalScan} && Fresh(g, ss[0], first)
    ensures Moves(es, |es|)
            <= if first == Scanning then 5 * ScanCost(|g.Leaves()|) + 11 else ScanCost(|g.Leaves()|) + 2
  {
    hide Visits, Reads, LiveMigration.Step, IsRun, Healthy;
    RunSize(g, es, ss);
    FreshHealthy(g, ss[0], first);
    RunCheaper(g, es, ss, |es|);
    CostNat(g, ss[|es|]);
    AllRounds(|g.Leaves()|);
  }

  lemma RunSize(g: Migration, es: seq<LiveMigration.Event>, ss: seq<Live>)
    requires IsRun(g, es, ss)
    ensures |ss| == |es| + 1
  {}

  lemma AllRounds(n: nat)
    ensures After(n, 1) == 4 * ScanCost(n) + 9
  {
    hide ScanCost;
    assert After(n, 4) == ScanCost(n) + 3;
    assert After(n, 3) == 2 * ScanCost(n) + 5;
    assert After(n, 2) == 3 * ScanCost(n) + 7;
  }

  /** It never gets stuck before its end either. */
  lemma AlwaysMovable(g: Migration, es: seq<LiveMigration.Event>, ss: seq<Live>, first: Phase, n: nat) returns (t: Live)
    requires ValidConfig(g.c) && IsRun(g, es, ss) && first in {Scanning, FinalScan} && Fresh(g, ss[0], first)
    requires n <= |es| && ss[n].phase != Done
    ensures n < |ss| && IdleEvent(g, ss[n]) != GuestRun && LiveMigration.Step(g, IdleEvent(g, ss[n]), ss[n], t)
  {
    hide Visits, Reads, LiveMigration.Step, Healthy, IsRun;
    RunSize(g, es, ss);
    FreshHealthy(g, ss[0], first);
    RunCheaper(g, es, ss, n);
    t := IdleStep(g, ss[n]);
  }
}
