/** The final stop of a migration: every vCPU thread saves its state between the
    vCPU barrier and the migration barrier, and the migration thread copies only
    after the latter (uhyve-x86_64.c:953-978, uhyve.c:620-636). */
module MigrationBarrier {
  import opened Barriers

  datatype Pc = Guest | Enter | WaitB | Save | EnterM | WaitM | EnterM2 | Parked

  /** The migration thread; Signal(k): SIGTHRMIG went to the threads below k. */
  datatype Mig = Precopy | Signal(k: nat) | Ready | Waiting | Copy | SendCpus | Done

  datatype Saved = Unsaved | Cpu(version: nat)

  /** `vcpus` is the barrier of the n vCPU threads, `all` the one they share with the
      migration thread, whose index there is n. `pages` holds the versions of the
      guest memory that stop_and_copy_phase has read, `cpus` what has been sent. */
  datatype State = State(pcs: seq<Pc>, mig: Mig, pend: seq<bool>, vcpus: Barrier, all: Barrier,
                         version: nat, saved: seq<Saved>, pages: set<nat>, cpus: seq<Saved>)

  datatype Event =
    | RunGuest(i: nat) | Interrupt(i: nat) | ArriveVcpus(i: nat) | LeaveVcpus(i: nat) | SaveCpu(i: nat)
    | ArriveAll(i: nat) | LeaveAll(i: nat)
    | StopGuest | SendSignal | MigArrive | MigLeave | CopyPage | EndCopy | SendStates

  predicate Shaped(s: State) {
    0 < |s.pcs| == |s.pend| == |s.vcpus.arrivals| == |s.saved| && |s.all.arrivals| == |s.pcs| + 1
  }

  predicate ByVcpu(e: Event) {
    e.RunGuest? || e.Interrupt? || e.ArriveVcpus? || e.LeaveVcpus? || e.SaveCpu? || e.ArriveAll? || e.LeaveAll?
  }

  function At(s: State, i: nat, pc: Pc): State
    requires i < |s.pcs|
  {
    s.(pcs := s.pcs[i := pc])
  }

  /** One step of vCPU thread i: guest code, or vcpu_thread_mig_handler. */
  predicate VcpuStep(e: Event, i: nat, s: State, t: State)
    requires Shaped(s) && i < |s.pcs|
  {
    match e
    case RunGuest(_) => s.pcs[i] == Guest && t == s.(version := s.version + 1)
    case Interrupt(_) => s.pcs[i] == Guest && s.pend[i] && t == At(s, i, Enter).(pend := s.pend[i := false])
    case ArriveVcpus(_) => s.pcs[i] == Enter && t == At(s, i, WaitB).(vcpus := Arrive(s.vcpus, i))
    case LeaveVcpus(_) => s.pcs[i] == WaitB && Passed(s.vcpus, i) && t == At(s, i, Save)
    case SaveCpu(_) => s.pcs[i] == Save && t == At(s, i, EnterM).(saved := s.saved[i := Cpu(s.version)])
    case ArriveAll(_) =>
      s.pcs[i] in {EnterM, EnterM2}
      && t == At(s, i, if s.pcs[i] == EnterM then WaitM else Parked).(all := Arrive(s.all, i))
    case LeaveAll(_) =>
      s.pcs[i] in {WaitM, Parked} && Passed(s.all, i) && t == At(s, i, if s.pcs[i] == WaitM then EnterM2 else Guest)
    case _ => false
  }

  predicate Step(e: Event, s: State, t: State)
    requires Shaped(s)
  {
    if ByVcpu(e) then e.i < |s.pcs| && VcpuStep(e, e.i, s, t)
    else
      match e
      case StopGuest => s.mig == Precopy && t == s.(mig := Signal(0))
      case SendSignal =>
        s.mig.Signal?
        && t == if s.mig.k < |s.pcs| then s.(mig := Signal(s.mig.k + 1), pend := s.pend[s.mig.k := true])
                else s.(mig := Ready)
      case MigArrive => s.mig == Ready && t == s.(mig := Waiting, all := Arrive(s.all, |s.pcs|))
      case MigLeave => s.mig == Waiting && Passed(s.all, |s.pcs|) && t == s.(mig := Copy)
      case CopyPage => s.mig == Copy && t == s.(pages := s.pages + {s.version})
      case EndCopy => s.mig == Copy && t == s.(mig := SendCpus)
      case SendStates => s.mig == SendCpus && t == s.(mig := Done, cpus := s.saved)
      case _ => false
  }

  predicate Init(s: State) {
    && Shaped(s) && s.mig == Precopy && s.vcpus == New(|s.pcs|) && s.all == New(|s.pcs| + 1)
    && s.pcs == seq(|s.pcs|, i => Guest) && s.pend == seq(|s.pcs|, i => false)
    && s.saved == seq(|s.pcs|, i => Unsaved) && s.pages == {} && s.cpus == []
  }

  predicate Told(s: State, i: nat) {
    s.mig != Precopy && (s.mig.Signal? ==> i < s.mig.k)
  }

  predicate VcpuOk(s: State, i: nat)
    requires Shaped(s) && i < |s.pcs|
  {
    var pc := s.pcs[i];
    && s.vcpus.arrivals[i] == (if pc in {Guest, Enter} then 0 else 1)
    && s.all.arrivals[i] == (if pc == Parked then 2 else if pc in {WaitM, EnterM2} then 1 else 0)
    && (pc != WaitB ==> Passed(s.vcpus, i))
    && (pc !in {WaitM, Parked} ==> Passed(s.all, i))
    && s.saved[i] == (if pc in {Guest, Enter, WaitB, Save} then Unsaved else Cpu(s.version))
    && (s.pend[i] <==> Told(s, i) && pc == Guest)
    && (pc != Guest ==> Told(s, i))
  }

  predicate MigOk(s: State)
    requires Shaped(s)
  {
    && s.all.arrivals[|s.pcs|] == (if s.mig in {Waiting, Copy, SendCpus, Done} then 1 else 0)
    && (s.mig != Waiting ==> Passed(s.all, |s.pcs|))
    && (s.mig.Signal? ==> s.mig.k <= |s.pcs|)
    && s.pages <= (if s.mig in {Copy, SendCpus, Done} then {s.version} else {})
    && s.cpus == (if s.mig == Done then s.saved else [])
  }

  predicate Inv(s: State) {
    Shaped(s) && Ok(s.vcpus) && Ok(s.all) && MigOk(s) && forall i: nat :: i < |s.pcs| ==> VcpuOk(s, i)
  }

  lemma Bounds(b: Barrier, i: nat)
    requires Ok(b) && i < |b.arrivals|
    ensures b.gen <= b.arrivals[i] <= b.gen + 1
  {}

  /** Once the migration thread has passed its barrier, every vCPU thread has saved
      the same state and none can leave its handler. */
  lemma AllStopped(s: State, i: nat)
    requires Inv(s) && s.mig in {Copy, SendCpus, Done} && i < |s.pcs|
    ensures s.pcs[i] in {WaitM, EnterM2, Parked} && s.saved[i] == Cpu(s.version)
    ensures s.pcs[i] == Parked ==> !Passed(s.all, i)
  {
    assert VcpuOk(s, i);
    Bounds(s.all, i);
    Bounds(s.all, |s.pcs|);
  }

  /** A saved vCPU state means that the guest no longer runs. */
  lemma SavedStops(s: State, i: nat, j: nat)
    requires Inv(s) && i < |s.pcs| && j < |s.pcs| && s.pcs[j] == Guest
    ensures s.pcs[i] in {Guest, Enter, WaitB}
  {
    assert VcpuOk(s, i) && VcpuOk(s, j);
    Bounds(s.vcpus, i);
    Bounds(s.vcpus, j);
  }

  lemma NobodyLeaves(s: State, i: nat)
    requires Inv(s) && i < |s.pcs| && s.pcs[i] == Parked
    ensures !Passed(s.all, i)
  {
    assert VcpuOk(s, i);
    Bounds(s.all, |s.pcs|);
  }

  lemma BarriersKept(e: Event, s: State, t: State)
    requires Inv(s) && Step(e, s, t)
    ensures Shaped(t) && Ok(t.vcpus) && Ok(t.all)
  {
    hide Ok;
    if e.ArriveVcpus? {
      assert VcpuOk(s, e.i);
      ArriveKeeps(s.vcpus, e.i);
    } else if e.ArriveAll? {
      assert VcpuOk(s, e.i);
      ArriveKeeps(s.all, e.i);
    } else if e.MigArrive? {
      ArriveKeeps(s.all, |s.pcs|);
    }
  }

  lemma VcpuKept(e: Event, s: State, t: State, j: nat)
    requires Inv(s) && Step(e, s, t) && j < |s.pcs| && Shaped(t)
    ensures VcpuOk(t, j)
  {
    hide Ok, Arrive;
    assert VcpuOk(s, j);
    if e.ArriveVcpus? { ArriveShape(s.vcpus, e.i); Bounds(s.vcpus, j); }
    if e.ArriveAll? { ArriveShape(s.all, e.i); Bounds(s.all, j); }
    if e.MigArrive? { ArriveShape(s.all, |s.pcs|); }
    if e.RunGuest? { SavedStops(s, j, e.i); }
    if e.LeaveAll? && s.pcs[e.i] == Parked { NobodyLeaves(s, e.i); }
  }

  lemma MigKept(e: Event, s: State, t: State)
    requires Inv(s) && Step(e, s, t) && Shaped(t) && Ok(t.all)
    ensures MigOk(t)
  {
    hide Ok, Arrive;
    if e.ArriveAll? { ArriveShape(s.all, e.i); }
    if e.MigArrive? { ArriveShape(s.all, |s.pcs|); }
    if ByVcpu(e) && s.mig in {Copy, SendCpus, Done} { AllStopped(s, e.i); }
  }

  lemma InvKept(e: Event, s: State, t: State)
    requires Inv(s) && Step(e, s, t)
    ensures Inv(t)
  {
    hide Ok, VcpuOk, MigOk, Arrive;
    BarriersKept(e, s, t);
    forall j: nat | j < |t.pcs| ensures VcpuOk(t, j) {
      VcpuKept(e, s, t, j);
    }
    MigKept(e, s, t);
  }

  lemma InvInit(s: State)
    requires Init(s)
    ensures Inv(s)
  {
    NewOk(|s.pcs|);
    NewOk(|s.pcs| + 1);
  }

  predicate IsRun(es: seq<Event>, ss: seq<State>) {
    && |ss| == |es| + 1 && Init(ss[0])
    && forall k: nat :: k < |es| ==> Shaped(ss[k]) && Step(es[k], ss[k], ss[k + 1])
  }

  lemma {:induction false} RunInv(es: seq<Event>, ss: seq<State>, k: nat)
    requires IsRun(es, ss) && k <= |es|
    ensures k < |ss| && Inv(ss[k])
  {
    hide Inv, Step, Init;
    if k == 0 {
      InvInit(ss[0]);
    } else {
      RunInv(es, ss, k - 1);
      assert Step(es[k - 1], ss[k - 1], ss[k]);
      InvKept(es[k - 1], ss[k - 1], ss[k]);
    }
  }

  /** While memory is finally copied every vCPU has saved its state, no thread runs
      the guest and none ever will: the memory copied and all CPU states sent show
      one guest state. */
  lemma ConsistentHandover(es: seq<Event>, ss: seq<State>, k: nat, i: nat)
    requires IsRun(es, ss) && k <= |es| && ss[k].mig in {Copy, SendCpus, Done} && i < |ss[k].pcs|
    ensures ss[k].pcs[i] in {WaitM, EnterM2, Parked}
    ensures i < |ss[k].saved| && ss[k].saved[i] == Cpu(ss[k].version)
    ensures ss[k].pages <= {ss[k].version}
    ensures ss[k].mig == Done ==> ss[k].cpus == ss[k].saved
    ensures ss[|es|].version == ss[k].version
    decreases |es| - k
  {
    hide IsRun, Step, VcpuOk, Ok;
    RunInv(es, ss, k);
    AllStopped(ss[k], i);
    if k < |es| {
      Onward(es, ss, k, i);
      ConsistentHandover(es, ss, k + 1, i);
    }
  }

  /** One step on, the guest is still stopped and its state unchanged. */
  lemma Onward(es: seq<Event>, ss: seq<State>, k: nat, i: nat)
    requires IsRun(es, ss) && k < |es| && ss[k].mig in {Copy, SendCpus, Done} && i < |ss[k].pcs| && Inv(ss[k])
    ensures ss[k + 1].mig in {Copy, SendCpus, Done} && |ss[k + 1].pcs| == |ss[k].pcs|
    ensures ss[k + 1].version == ss[k].version
  {
    hide VcpuOk, MigOk, Ok;
    assert Step(es[k], ss[k], ss[k + 1]);
    if ByVcpu(es[k]) { AllStopped(ss[k], es[k].i); }
  }

  ghost predicate Progress(s: State)
    requires Shaped(s)
  {
    exists e: Event, t: State :: !e.RunGuest? && !e.CopyPage? && Step(e, s, t)
  }

  /** The handshake always reaches its end: until then some thread can move. */
  lemma NoDeadlock(es: seq<Event>, ss: seq<State>, k: nat)
    requires IsRun(es, ss) && k <= |es| && ss[k].mig !in {Precopy, Done}
    ensures Shaped(ss[k]) && Progress(ss[k])
  {
    hide IsRun, Step, Ok, VcpuOk, Progress;
    RunInv(es, ss, k);
    var s := ss[k];
    if s.mig == Waiting && !Passed(s.all, |s.pcs|) {
      Blocked(s);
    } else {
      MigMoves(s);
    }
  }

  lemma MigMoves(s: State)
    requires Inv(s) && s.mig !in {Precopy, Done} && (s.mig == Waiting ==> Passed(s.all, |s.pcs|))
    ensures Progress(s)
  {
    hide Ok, VcpuOk, Arrive;
    match s.mig
    case Signal(k) =>
      var told := if k < |s.pcs| then s.(mig := Signal(k + 1), pend := s.pend[k := true]) else s.(mig := Ready);
      assert Step(SendSignal, s, told);
    case Ready => assert Step(MigArrive, s, s.(mig := Waiting, all := Arrive(s.all, |s.pcs|)));
    case Waiting => assert Step(MigLeave, s, s.(mig := Copy));
    case Copy => assert Step(EndCopy, s, s.(mig := SendCpus));
    case SendCpus => assert Step(SendStates, s, s.(mig := Done, cpus := s.saved));
  }

  /** A waiting migration thread means that some vCPU thread still has steps to take. */
  lemma Blocked(s: State)
    requires Inv(s) && s.mig == Waiting && !Passed(s.all, |s.pcs|)
    ensures Progress(s)
  {
    hide Ok, Arrive, Progress, Step;
    var j := Missing(s.all);
    Bounds(s.all, |s.pcs|);
    assert VcpuOk(s, j);
    if s.pcs[j] == WaitB && !Passed(s.vcpus, j) {
      var i := Missing(s.vcpus);
      Bounds(s.vcpus, j);
      assert VcpuOk(s, i);
      VcpuMoves(s, i);
    } else {
      VcpuMoves(s, j);
    }
  }

  lemma VcpuMoves(s: State, i: nat)
    requires Inv(s) && i < |s.pcs| && s.pcs[i] !in {WaitM, EnterM2, Parked}
    requires (s.pcs[i] == Guest ==> s.pend[i]) && (s.pcs[i] == WaitB ==> Passed(s.vcpus, i))
    ensures Progress(s)
  {
    hide Ok, VcpuOk, MigOk, Arrive;
    match s.pcs[i]
    case Guest => assert Step(Interrupt(i), s, At(s, i, Enter).(pend := s.pend[i := false]));
    case Enter => assert Step(ArriveVcpus(i), s, At(s, i, WaitB).(vcpus := Arrive(s.vcpus, i)));
    case WaitB => assert Step(LeaveVcpus(i), s, At(s, i, Save));
    case Save => assert Step(SaveCpu(i), s, At(s, i, EnterM).(saved := s.saved[i := Cpu(s.version)]));
    case EnterM => assert Step(ArriveAll(i), s, At(s, i, WaitM).(all := Arrive(s.all, i)));
  }

  // ------------------------------------------------------------- termination

  function Left(pc: Pc): nat {
    match pc
    case Guest => 7 case Enter => 6 case WaitB => 5 case Save => 4
    case EnterM => 3 case WaitM => 2 case EnterM2 => 1 case Parked => 0
  }

  function MigLeft(s: State): nat {
    match s.mig
    case Precopy => |s.pcs| + 6
    case Signal(k) => 5 + if k < |s.pcs| then |s.pcs| - k else 0
    case Ready => 4 case Waiting => 3 case Copy => 2 case SendCpus => 1 case Done => 0
  }

  function AllLeft(pcs: seq<Pc>): (r: seq<nat>)
    ensures |r| == |pcs| && forall i :: 0 <= i < |r| ==> r[i] == Left(pcs[i])
  {
    seq(|pcs|, i requires 0 <= i < |pcs| => Left(pcs[i]))
  }

  function Measure(s: State): nat {
    Sum(AllLeft(s.pcs)) + MigLeft(s)
  }

  predicate Handshake(e: Event) {
    !e.RunGuest? && !e.CopyPage?
  }

  /** Every step but guest execution and the copy of a page brings the end nearer. */
  lemma StepCloser(e: Event, s: State, t: State)
    requires Inv(s) && Step(e, s, t)
    ensures if Handshake(e) then Measure(t) < Measure(s) else Measure(t) == Measure(s)
  {
    hide Ok, Arrive, VcpuOk, Sum, Passed;
    if ByVcpu(e) && Handshake(e) {
      if s.pcs[e.i] == Parked { NobodyLeaves(s, e.i); }
      SumUpdate(AllLeft(s.pcs), e.i, Left(t.pcs[e.i]));
      assert AllLeft(t.pcs) == AllLeft(s.pcs)[e.i := Left(t.pcs[e.i])];
    }
  }

  function Handled(es: seq<Event>, n: nat): nat
    requires n <= |es|
  {
    if n == 0 then 0 else Handled(es, n - 1) + if Handshake(es[n - 1]) then 1 else 0
  }

  lemma {:induction false} MigrationProgress(es: seq<Event>, ss: seq<State>, n: nat)
    requires IsRun(es, ss) && n <= |es|
    ensures Handled(es, n) + Measure(ss[n]) <= Measure(ss[0])
  {
    hide Inv, Measure, Init;
    if n > 0 {
      MigrationProgress(es, ss, n - 1);
      RunInv(es, ss, n - 1);
      assert Step(es[n - 1], ss[n - 1], ss[n]);
      StepCloser(es[n - 1], ss[n - 1], ss[n]);
    }
  }

  /** The whole handshake takes at most 8 n + 6 steps; by NoDeadlock it then has sent
      all states. */
  lemma MigrationEnds(es: seq<Event>, ss: seq<State>)
    requires IsRun(es, ss)
    ensures Handled(es, |es|) <= 8 * |ss[0].pcs| + 6
  {
    MigrationProgress(es, ss, |es|);
    SumBound(AllLeft(ss[0].pcs), 7);
  }

  // -------------------------------------------------------------- completion

  lemma Extend(es: seq<Event>, ss: seq<State>, e: Event, t: State)
    requires IsRun(es, ss) && Shaped(ss[|es|]) && Step(e, ss[|es|], t)
    ensures IsRun(es + [e], ss + [t]) && |ss| == |es| + 1 && (ss + [t])[|es + [e]|] == t
  {
    hide Step, Init;
  }

  /** Before the handover the migration thread can always stop the guest. */
  lemma CanMove(es: seq<Event>, ss: seq<State>) returns (e: Event, t: State)
    requires IsRun(es, ss) && ss[|es|].mig != Done
    ensures Shaped(ss[|es|]) && Handshake(e) && Step(e, ss[|es|], t)
  {
    hide VcpuOk, Ok;
    RunInv(es, ss, |es|);
    var s := ss[|es|];
    if s.mig == Precopy {
      e, t := StopGuest, s.(mig := Signal(0));
    } else {
      NoDeadlock(es, ss, |es|);
      e, t :| !e.RunGuest? && !e.CopyPage? && Step(e, s, t);
    }
  }

  /** Whatever has happened, the handover can be completed. */
  lemma {:induction false} Completes(es: seq<Event>, ss: seq<State>) returns (more: seq<Event>, states: seq<State>)
    requires IsRun(es, ss)
    ensures es <= more && ss <= states && IsRun(more, states) && states[|more|].mig == Done
    decreases Measure(ss[|es|])
  {
    RunInv(es, ss, |es|);
    hide IsRun, Inv, Step, Measure;
    more, states := es, ss;
    if ss[|es|].mig != Done {
      var e, t := CanMove(es, ss);
      Extend(es, ss, e, t);
      StepCloser(e, ss[|es|], t);
      more, states := Completes(es + [e], ss + [t]);
    }
  }

  /** For any number of threads some run hands over all of their states. */
  lemma SomeHandover(n: nat) returns (es: seq<Event>, ss: seq<State>)
    requires n > 0
    ensures IsRun(es, ss) && |ss[0].pcs| == n && ss[|es|].mig == Done
    ensures |ss[|es|].cpus| == n && forall i :: 0 <= i < n ==> ss[|es|].cpus[i] == Cpu(ss[|es|].version)
  {
    hide Step, VcpuOk;
    var first := State(seq(n, i => Guest), Precopy, seq(n, i => false), New(n), New(n + 1), 0,
                       seq(n, i => Unsaved), {}, []);
    es, ss := Completes([], [first]);
    RunInv(es, ss, |es|);
    SameThreads(es, ss, |es|);
    forall i: nat | i < n ensures ss[|es|].cpus[i] == Cpu(ss[|es|].version) {
      AllStopped(ss[|es|], i);
    }
  }

  lemma {:induction false} SameThreads(es: seq<Event>, ss: seq<State>, k: nat)
    requires IsRun(es, ss) && k <= |es|
    ensures k < |ss| && |ss[k].pcs| == |ss[0].pcs|
  {
    hide Init;
    if k > 0 { SameThreads(es, ss, k - 1); }
  }
}
