/** The two-barrier checkpoint handshake among any number of vCPU threads
    (uhyve-x86_64.c:835-906, uhyve.c:612-618). */
module CheckpointBarrier {
  import opened Barriers

  /** Where a vCPU thread stands. Signal(k): timer_handler has signalled the threads
      below k. Open, Dump and Config are timer_handler's own steps. */
  datatype Pc = Guest | Signal(k: nat) | Enter | Wait1 | Save | Open | Dump | Enter2 | Wait2 | Config

  datatype Leader = Nobody | Thread(id: nat)

  datatype Who = Core(id: nat) | Mem

  /** Part of a checkpoint file, and the guest state it shows. */
  datatype File = File(number: nat, who: Who, version: nat)

  /** `leader` is the thread running timer_handler, `pend` the checkpoint signals
      not yet taken, `version` counts every bit of guest execution. */
  datatype State = State(pcs: seq<Pc>, pend: seq<nat>, barrier: Barrier, leader: Leader,
                         number: nat, version: nat, files: set<File>)

  datatype Event =
    | Tick(i: nat) | SendSignal(i: nat) | Interrupt(i: nat) | RunGuest(i: nat) | Arrival(i: nat) | Leave(i: nat)
    | SaveCpu(i: nat) | OpenMem(i: nat) | DumpMem(i: nat) | EndDump(i: nat) | Finish(i: nat)

  predicate Shaped(s: State) {
    |s.pcs| == |s.pend| == |s.barrier.arrivals| > 0
  }

  function At(s: State, i: nat, pc: Pc): State
    requires i < |s.pcs|
  {
    s.(pcs := s.pcs[i := pc])
  }

  predicate Leads(s: State, i: nat) {
    s.leader == Thread(i)
  }

  /** SIGTHRCHKP goes to every thread but the sender. */
  function Signalled(s: State, i: nat, k: nat): State
    requires Shaped(s) && i < |s.pcs|
  {
    if k >= |s.pcs| then At(s, i, Enter)
    else At(s, i, Signal(k + 1)).(pend := if k == i then s.pend else s.pend[k := s.pend[k] + 1])
  }

  predicate Step(e: Event, s: State, t: State)
    requires Shaped(s)
  {
    var i := e.i;
    i < |s.pcs|
    && match e
       case Tick(_) => // ticks do not overlap: no handler is running
         s.leader == Nobody && s.pcs[i] == Guest && t == At(s, i, Signal(0)).(leader := Thread(i))
       case SendSignal(_) => s.pcs[i].Signal? && t == Signalled(s, i, s.pcs[i].k)
       case Interrupt(_) =>
         s.pcs[i] == Guest && s.pend[i] > 0 && t == At(s, i, Enter).(pend := s.pend[i := s.pend[i] - 1])
       case RunGuest(_) => s.pcs[i] == Guest && t == s.(version := s.version + 1)
       case Arrival(_) =>
         s.pcs[i] in {Enter, Enter2}
         && t == At(s, i, if s.pcs[i] == Enter then Wait1 else Wait2).(barrier := Arrive(s.barrier, i))
       case Leave(_) =>
         s.pcs[i] in {Wait1, Wait2} && Passed(s.barrier, i)
         && t == At(s, i, if s.pcs[i] == Wait1 then Save else if Leads(s, i) then Config else Guest)
       case SaveCpu(_) =>
         s.pcs[i] == Save
         && var saved := s.files + {File(s.number, Core(i), s.version)};
            t == At(s, i, if Leads(s, i) then Open else Enter2).(files := saved)
       case OpenMem(_) =>
         s.pcs[i] == Open && t == At(s, i, Dump).(files := s.files + {File(s.number, Mem, s.version)})
       case DumpMem(_) =>
         s.pcs[i] == Dump && t == s.(files := s.files + {File(s.number, Mem, s.version)})
       case EndDump(_) => s.pcs[i] == Dump && t == At(s, i, Enter2)
       case Finish(_) =>
         s.pcs[i] == Config && t == At(s, i, Guest).(leader := Nobody, number := s.number + 1)
  }

  predicate Init(s: State) {
    && Shaped(s) && s.barrier == New(|s.pcs|) && s.leader == Nobody && s.number == 0 && s.files == {}
    && s.pcs == seq(|s.pcs|, i => Guest) && s.pend == seq(|s.pcs|, i => 0)
  }

  // ------------------------------------------------------------ invariants

  predicate AllSignalled(s: State, i: nat)
    requires Shaped(s)
  {
    && s.leader.Thread? && s.leader.id < |s.pcs|
    && (s.pcs[s.leader.id].Signal? ==> i < s.pcs[s.leader.id].k)
  }

  /** Where thread i stands against the checkpoint number. */
  predicate ThreadOk(s: State, i: nat)
    requires Shaped(s) && i < |s.pcs|
  {
    var pc, base, a := s.pcs[i], 2 * s.number, s.barrier.arrivals[i];
    && (pc !in {Wait1, Wait2} ==> Passed(s.barrier, i))
    && if Leads(s, i) then
         && s.pend[i] == 0
         && match pc
            case Signal(k) => a == base && k <= |s.pcs|
            case Enter => a == base
            case Guest => false
            case _ => a == if pc in {Wait2, Config} then base + 2 else base + 1
       else if a == base && pc in {Guest, Wait2} then
         s.pend[i] == if AllSignalled(s, i) then 1 else 0
       else
         && AllSignalled(s, i) && s.pend[i] == 0
         && match pc
            case Enter => a == base
            case Wait1 | Save | Enter2 => a == base + 1
            case Wait2 | Guest => a == base + 2
            case _ => false
  }

  predicate Protocol(s: State) {
    && Shaped(s) && Ok(s.barrier)
    && (s.leader.Thread? ==> s.leader.id < |s.pcs|)
    && forall i: nat :: i < |s.pcs| ==> ThreadOk(s, i)
  }

  /** While the world is stopped for checkpoint `number`. */
  predicate Stopped(s: State) {
    s.barrier.gen == 2 * s.number + 1
  }

  predicate FileOk(s: State, f: File) {
    f.number < s.number
    || (f.number == s.number && s.barrier.gen > 2 * s.number && (Stopped(s) ==> f.version == s.version))
  }

  ghost predicate HasFile(s: State, number: nat, who: Who) {
    exists v :: File(number, who, v) in s.files
  }

  ghost predicate Complete(s: State, number: nat) {
    HasFile(s, number, Mem) && forall i: nat :: i < |s.pcs| ==> HasFile(s, number, Core(i))
  }

  predicate PastSave(s: State, i: nat)
    requires Shaped(s) && i < |s.pcs|
  {
    s.pcs[i] in {Open, Dump, Enter2} || s.barrier.arrivals[i] == 2 * s.number + 2
  }

  predicate PastDump(s: State, i: nat)
    requires Shaped(s) && i < |s.pcs|
  {
    Leads(s, i) && (s.pcs[i] in {Dump, Enter2} || s.barrier.arrivals[i] == 2 * s.number + 2)
  }

  predicate OneVersion(files: set<File>) {
    forall f, g :: f in files && g in files && f.number == g.number ==> f.version == g.version
  }

  ghost predicate Files(s: State)
    requires Shaped(s)
  {
    && OneVersion(s.files)
    && (forall f :: f in s.files ==> FileOk(s, f))
    && (forall i: nat :: i < |s.pcs| && PastSave(s, i) ==> HasFile(s, s.number, Core(i)))
    && (forall i: nat :: i < |s.pcs| && PastDump(s, i) ==> HasFile(s, s.number, Mem))
    && forall k: nat :: k < s.number ==> Complete(s, k)
  }

  ghost predicate Inv(s: State) {
    Protocol(s) && Files(s)
  }

  /** The generation is at most two ahead of the checkpoint number's. */
  lemma Phases(s: State)
    requires Protocol(s)
    ensures 2 * s.number <= s.barrier.gen <= 2 * s.number + 2
    ensures s.leader == Nobody ==> s.barrier.gen == 2 * s.number
    ensures forall i: nat :: i < |s.pcs| && s.pcs[i] in {Save, Open, Dump, Enter2} ==> Stopped(s)
    ensures forall i: nat :: i < |s.pcs| && s.pcs[i] == Config ==> s.barrier.gen == 2 * s.number + 2
  {
    var j := Missing(s.barrier);
    assert ThreadOk(s, j);
    forall i: nat | i < |s.pcs| && s.pcs[i] in {Save, Open, Dump, Enter2, Config}
      ensures s.barrier.gen == if s.pcs[i] == Config then 2 * s.number + 2 else 2 * s.number + 1
    {
      assert ThreadOk(s, i);
    }
  }

  /** While the world is stopped nobody executes guest code. */
  lemma NobodyRuns(s: State, i: nat)
    requires Protocol(s) && Stopped(s) && i < |s.pcs|
    ensures s.pcs[i] in {Wait1, Save, Open, Dump, Enter2, Wait2}
  {
    hide Ok;
    assert ThreadOk(s, i);
    assert Ok(s.barrier);
    assert s.barrier.gen <= s.barrier.arrivals[i] by { GenBelow(s.barrier, i); }
  }

  lemma GenBelow(b: Barrier, i: nat)
    requires Ok(b) && i < |b.arrivals|
    ensures b.gen <= b.arrivals[i] <= b.gen + 1
  {}

  lemma MoverKept(e: Event, s: State, t: State)
    requires Protocol(s) && Step(e, s, t)
    requires e.Arrival? ==> Ok(t.barrier)
    ensures ThreadOk(t, e.i)
  {
    hide Ok, Arrive;
    var i := e.i;
    assert ThreadOk(s, i);
    GenBelow(s.barrier, i);
    Phases(s);
    if e.Arrival? {
      ArriveShape(s.barrier, i);
      GenBelow(t.barrier, i);
    }
    if s.leader.Thread? { assert ThreadOk(s, s.leader.id); }
  }

  lemma OtherKept(e: Event, s: State, t: State, j: nat)
    requires Protocol(s) && Step(e, s, t) && j < |s.pcs| && j != e.i
    requires e.Arrival? ==> Ok(t.barrier)
    ensures ThreadOk(t, j)
  {
    hide Ok, Arrive;
    assert ThreadOk(s, j) && ThreadOk(s, e.i);
    if e.Arrival? {
      OtherArrived(e, s, t, j);
    } else if e.Finish? {
      OtherFinished(e, s, t, j);
    } else if s.leader.Thread? {
      assert ThreadOk(s, s.leader.id);
    }
  }

  lemma OtherArrived(e: Event, s: State, t: State, j: nat)
    requires Protocol(s) && Step(e, s, t) && j < |s.pcs| && j != e.i && e.Arrival? && Ok(t.barrier)
    ensures ThreadOk(t, j)
  {
    hide Ok, Arrive;
    assert ThreadOk(s, j) && ThreadOk(s, e.i);
    ArriveShape(s.barrier, e.i);
    assert AllSignalled(t, j) == AllSignalled(s, j);
  }

  lemma OtherFinished(e: Event, s: State, t: State, j: nat)
    requires Protocol(s) && Step(e, s, t) && j < |s.pcs| && j != e.i && e.Finish?
    ensures ThreadOk(t, j)
  {
    hide Ok, Arrive;
    assert ThreadOk(s, j) && ThreadOk(s, e.i);
    GenBelow(s.barrier, j);
    Phases(s);
  }

  lemma Mover(s: State, i: nat)
    requires Protocol(s) && i < |s.pcs| && s.pcs[i] !in {Wait1, Wait2}
    ensures Passed(s.barrier, i)
  {
    assert ThreadOk(s, i);
  }

  lemma ProtocolKept(e: Event, s: State, t: State)
    requires Protocol(s) && Step(e, s, t)
    ensures Protocol(t)
  {
    hide ThreadOk, Ok;
    if e.Arrival? {
      Mover(s, e.i);
      ArriveKeeps(s.barrier, e.i);
    }
    forall j: nat | j < |t.pcs| ensures ThreadOk(t, j) {
      if j == e.i { MoverKept(e, s, t); } else { OtherKept(e, s, t, j); }
    }
  }

  lemma ContentKept(e: Event, s: State, t: State)
    requires Inv(s) && Step(e, s, t) && Protocol(t)
    ensures OneVersion(t.files) && forall f :: f in t.files ==> FileOk(t, f)
  {
    hide Ok, ThreadOk, HasFile, Complete, PastSave, PastDump;
    Phases(s);
    Phases(t);
    if e.RunGuest? && Stopped(s) { NobodyRuns(s, e.i); }
  }

  lemma FileStays(s: State, t: State, number: nat, who: Who)
    requires HasFile(s, number, who) && s.files <= t.files
    ensures HasFile(t, number, who)
  {
    var v :| File(number, who, v) in s.files;
    assert File(number, who, v) in t.files;
  }

  lemma CompleteStays(s: State, t: State, number: nat)
    requires Complete(s, number) && s.files <= t.files && |s.pcs| == |t.pcs|
    ensures Complete(t, number)
  {
    FileStays(s, t, number, Mem);
    forall i: nat | i < |t.pcs| ensures HasFile(t, number, Core(i)) {
      FileStays(s, t, number, Core(i));
    }
  }

  /** What a thread had written before the step, or writes in it. */
  lemma SavedKept(e: Event, s: State, t: State, i: nat)
    requires Inv(s) && Step(e, s, t) && Protocol(t) && i < |s.pcs|
    ensures PastSave(t, i) ==> HasFile(t, t.number, Core(i))
    ensures PastDump(t, i) ==> HasFile(t, t.number, Mem)
  {
    hide Ok, Complete, HasFile;
    Phases(s);
    Phases(t);
    assert ThreadOk(s, i) && ThreadOk(t, i);
    GenBelow(s.barrier, i);
    if PastSave(s, i) && s.number == t.number { FileStays(s, t, t.number, Core(i)); }
    if PastDump(s, i) && s.number == t.number { FileStays(s, t, t.number, Mem); }
    if e.SaveCpu? { Written(t, t.number, Core(e.i), s.version); }
    if e.OpenMem? { Written(t, t.number, Mem, s.version); }
  }

  lemma Written(t: State, number: nat, who: Who, version: nat)
    requires File(number, who, version) in t.files
    ensures HasFile(t, number, who)
  {}

  /** When timer_handler ends, every part of its checkpoint is there. */
  lemma FinishComplete(s: State, i: nat)
    requires Inv(s) && i < |s.pcs| && s.pcs[i] == Config
    ensures Complete(s, s.number)
  {
    hide Ok, HasFile;
    Phases(s);
    assert ThreadOk(s, i) && PastDump(s, i);
    forall j: nat | j < |s.pcs| ensures HasFile(s, s.number, Core(j)) {
      assert ThreadOk(s, j);
      GenBelow(s.barrier, j);
      assert PastSave(s, j);
    }
  }

  lemma InvKept(e: Event, s: State, t: State)
    requires Inv(s) && Step(e, s, t)
    ensures Inv(t)
  {
    hide Ok, ThreadOk, PastSave, PastDump, HasFile, Complete, OneVersion, FileOk;
    ProtocolKept(e, s, t);
    ContentKept(e, s, t);
    forall i: nat | i < |t.pcs|
      ensures PastSave(t, i) ==> HasFile(t, t.number, Core(i))
      ensures PastDump(t, i) ==> HasFile(t, t.number, Mem)
    {
      SavedKept(e, s, t, i);
    }
    forall k: nat | k < t.number ensures Complete(t, k) {
      if k == s.number { FinishComplete(s, e.i); }
      CompleteStays(s, t, k);
    }
  }

  lemma InvInit(s: State)
    requires Init(s)
    ensures Inv(s)
  {
    NewOk(|s.pcs|);
  }

  // ---------------------------------------------------------------- theorems

  predicate IsRun(es: seq<Event>, ss: seq<State>) {
    && |ss| == |es| + 1 && Init(ss[0])
    && forall k: nat :: k < |es| ==> Shaped(ss[k]) && Step(es[k], ss[k], ss[k + 1])
  }

  lemma {:induction false} RunInv(es: seq<Event>, ss: seq<State>, k: nat)
    requires IsRun(es, ss) && k <= |es|
    ensures k < |ss| && Inv(ss[k])
  {
    hide Inv, Step, Init;
    if k == 0 {
      InvInit(ss[0]);
    } else {
      RunInv(es, ss, k - 1);
      assert Step(es[k - 1], ss[k - 1], ss[k]);
      InvKept(es[k - 1], ss[k - 1], ss[k]);
    }
  }

  /** Stop-the-world: from opening the memory file to the end of the dump every
      thread is inside its handler, so no step can change the guest state. */
  lemma StopTheWorld(es: seq<Event>, ss: seq<State>, k: nat, l: nat)
    requires IsRun(es, ss) && k <= |es| && l < |ss[k].pcs| && ss[k].pcs[l] in {Open, Dump}
    ensures forall i: nat :: i < |ss[k].pcs| ==> ss[k].pcs[i] in {Wait1, Save, Open, Dump, Enter2, Wait2}
    ensures k < |es| ==> ss[k + 1].version == ss[k].version
  {
    hide IsRun, Files, Step;
    RunInv(es, ss, k);
    var s := ss[k];
    Phases(s);
    assert s.pcs[l] in {Save, Open, Dump, Enter2};
    forall i: nat | i < |s.pcs| ensures s.pcs[i] in {Wait1, Save, Open, Dump, Enter2, Wait2} {
      NobodyRuns(s, i);
    }
    if k < |es| { StoppedStep(es, ss, k); }
  }

  lemma StoppedStep(es: seq<Event>, ss: seq<State>, k: nat)
    requires IsRun(es, ss) && k < |es| && Shaped(ss[k])
    requires forall i: nat :: i < |ss[k].pcs| ==> ss[k].pcs[i] != Guest
    ensures ss[k + 1].version == ss[k].version
  {}

  /** A checkpoint is one consistent cut: all its parts are there and all of them
      (every page of the memory dump too) show one and the same guest state. */
  lemma ConsistentCut(es: seq<Event>, ss: seq<State>, k: nat, n: nat) returns (version: nat)
    requires IsRun(es, ss) && k <= |es| && n < ss[k].number
    ensures HasFile(ss[k], n, Mem)
    ensures forall i: nat :: i < |ss[k].pcs| ==> HasFile(ss[k], n, Core(i))
    ensures forall f :: f in ss[k].files && f.number == n ==> f.version == version
  {
    hide IsRun, HasFile, Protocol;
    RunInv(es, ss, k);
    assert Complete(ss[k], n);
    version := Witness(ss[k], n);
  }

  lemma Witness(s: State, n: nat) returns (version: nat)
    requires HasFile(s, n, Mem)
    ensures File(n, Mem, version) in s.files
  {
    version :| File(n, Mem, version) in s.files;
  }

  /** A step that neither runs the guest nor starts a tick. */
  ghost predicate Progress(s: State)
    requires Shaped(s)
  {
    exists e: Event, t: State :: !e.RunGuest? && !e.Tick? && !e.DumpMem? && Step(e, s, t)
  }

  /** The handshake cannot deadlock: while a tick is being handled some thread can
      always take its next step. */
  lemma NoDeadlock(es: seq<Event>, ss: seq<State>, k: nat)
    requires IsRun(es, ss) && k <= |es| && ss[k].leader != Nobody
    ensures Shaped(ss[k]) && Progress(ss[k])
  {
    hide IsRun, Files;
    RunInv(es, ss, k);
    Movable(ss[k]);
  }

  lemma Movable(s: State)
    requires Protocol(s) && s.leader != Nobody
    ensures Progress(s)
  {
    hide Ok, Arrive, Progress, Step;
    var l := s.leader.id;
    assert ThreadOk(s, l);
    if s.pcs[l] in {Wait1, Wait2} && !Passed(s.barrier, l) {
      var j := Missing(s.barrier);
      assert ThreadOk(s, j);
      GenBelow(s.barrier, l);
      Moves(s, j);
    } else {
      Moves(s, l);
    }
  }

  lemma Moves(s: State, i: nat)
    requires Protocol(s) && i < |s.pcs|
    requires s.pcs[i] == Guest ==> s.pend[i] > 0
    requires s.pcs[i] in {Wait1, Wait2} ==> Passed(s.barrier, i)
    ensures Progress(s)
  {
    hide Ok, ThreadOk, Arrive;
    match s.pcs[i]
    case Guest => assert Step(Interrupt(i), s, At(s, i, Enter).(pend := s.pend[i := s.pend[i] - 1]));
    case Signal(k) => assert Step(SendSignal(i), s, Signalled(s, i, k));
    case Enter => assert Step(Arrival(i), s, At(s, i, Wait1).(barrier := Arrive(s.barrier, i)));
    case Enter2 => assert Step(Arrival(i), s, At(s, i, Wait2).(barrier := Arrive(s.barrier, i)));
    case Wait1 => assert Step(Leave(i), s, At(s, i, Save));
    case Wait2 => assert Step(Leave(i), s, At(s, i, if Leads(s, i) then Config else Guest));
    case Save =>
      var saved := s.files + {File(s.number, Core(i), s.version)};
      assert Step(SaveCpu(i), s, At(s, i, if Leads(s, i) then Open else Enter2).(files := saved));
    case Open => assert Step(OpenMem(i), s, At(s, i, Dump).(files := s.files + {File(s.number, Mem, s.version)}));
    case Dump => assert Step(EndDump(i), s, At(s, i, Enter2));
    case Config => assert Step(Finish(i), s, At(s, i, Guest).(leader := Nobody, number := s.number + 1));
  }

  // ------------------------------------------------------------- termination

  /** How many steps of the handshake thread i still has before it, at most. */
  function Remaining(s: State, i: nat): nat
    requires Shaped(s) && i < |s.pcs|
  {
    var early := s.barrier.arrivals[i] == 2 * s.number;
    match s.pcs[i]
    case Signal(k) => 12 + if k < |s.pcs| then |s.pcs| - k else 0
    case Enter => if Leads(s, i) then 11 else 8
    case Wait1 => if Leads(s, i) then 10 else 7
    case Save => if Leads(s, i) then 9 else 6
    case Open => 8
    case Dump => 7
    case Enter2 => if Leads(s, i) then 6 else 5
    case Wait2 => if Leads(s, i) then 5 else if early then 10 else 4
    case Config => 4
    case Guest => if early then 9 else 0
  }

  function AllRemaining(s: State): (r: seq<nat>)
    requires Shaped(s)
    ensures |r| == |s.pcs| && forall i: nat :: i < |r| ==> r[i] == Remaining(s, i)
  {
    seq(|s.pcs|, i requires 0 <= i < |s.pcs| => Remaining(s, i))
  }

  function Measure(s: State): nat
    requires Shaped(s)
  {
    Sum(AllRemaining(s))
  }

  /** A step of the handshake itself. */
  predicate Handshake(e: Event) {
    !e.RunGuest? && !e.DumpMem? && !e.Tick?
  }

  lemma MoverCloser(e: Event, s: State, t: State)
    requires Protocol(s) && Step(e, s, t) && Protocol(t) && s.leader != Nobody && t.leader != Nobody
    ensures if Handshake(e) then Remaining(t, e.i) < Remaining(s, e.i) else Remaining(t, e.i) == Remaining(s, e.i)
    ensures s.number == t.number && s.leader == t.leader
  {
    hide Ok, Arrive;
    assert ThreadOk(s, e.i) && ThreadOk(t, e.i);
  }

  lemma OtherSame(e: Event, s: State, t: State, j: nat)
    requires Protocol(s) && Step(e, s, t) && s.leader == t.leader && s.number == t.number && j < |s.pcs| && j != e.i
    ensures Shaped(t) && Remaining(t, j) == Remaining(s, j)
  {
    hide Ok;
  }

  /** While a tick is being handled each step of the handshake brings its end nearer,
      and neither guest execution nor the dump of a page puts it off. */
  lemma StepCloser(e: Event, s: State, t: State)
    requires Protocol(s) && Step(e, s, t) && Protocol(t) && s.leader != Nobody && t.leader != Nobody
    ensures if Handshake(e) then Measure(t) < Measure(s) else Measure(t) == Measure(s)
  {
    hide Ok, ThreadOk, Arrive, Remaining;
    MoverCloser(e, s, t);
    forall j: nat | j < |s.pcs| && j != e.i ensures Remaining(t, j) == Remaining(s, j) {
      OtherSame(e, s, t, j);
    }
    var a, b := AllRemaining(s), AllRemaining(t);
    assert b == a[e.i := Remaining(t, e.i)];
    SumUpdate(a, e.i, Remaining(t, e.i));
  }

  /** The handshake's steps among the events from..to. */
  function Handled(es: seq<Event>, from: nat, to: nat): nat
    requires from <= to <= |es|
  {
    if from == to then 0 else Handled(es, from, to - 1) + if Handshake(es[to - 1]) then 1 else 0
  }

  lemma {:induction false} TickProgress(es: seq<Event>, ss: seq<State>, from: nat, to: nat)
    requires IsRun(es, ss) && from <= to <= |es| && forall k :: from <= k <= to ==> ss[k].leader != Nobody
    ensures to < |ss| && Protocol(ss[from]) && Protocol(ss[to])
    ensures Handled(es, from, to) + Measure(ss[to]) <= Measure(ss[from])
  {
    hide Protocol, Files, Measure, IsRun;
    RunInv(es, ss, from);
    RunInv(es, ss, to);
    if from < to {
      RunInv(es, ss, to - 1);
      TickProgress(es, ss, from, to - 1);
      RunStep(es, ss, to - 1);
      StepCloser(es[to - 1], ss[to - 1], ss[to]);
    }
  }

  lemma RunStep(es: seq<Event>, ss: seq<State>, k: nat)
    requires IsRun(es, ss) && k < |es|
    ensures k + 1 < |ss| && Shaped(ss[k]) && Step(es[k], ss[k], ss[k + 1])
  {}

  /** Every tick ends: with n threads its handler takes at most n * (n + 12) steps of
      the handshake, and by NoDeadlock there is always a next one. */
  lemma TickEnds(es: seq<Event>, ss: seq<State>, from: nat, to: nat)
    requires IsRun(es, ss) && from <= to <= |es| && forall k :: from <= k <= to ==> ss[k].leader != Nobody
    ensures Handled(es, from, to) <= |ss[from].pcs| * (|ss[from].pcs| + 12)
  {
    hide IsRun, Protocol;
    TickProgress(es, ss, from, to);
    MeasureBound(ss[from]);
  }

  lemma MeasureBound(s: State)
    requires Protocol(s)
    ensures Measure(s) <= |s.pcs| * (|s.pcs| + 12)
  {
    hide Ok, ThreadOk;
    SumBound(AllRemaining(s), |s.pcs| + 12);
  }

  // -------------------------------------------------------------- completion

  lemma Extend(es: seq<Event>, ss: seq<State>, e: Event, t: State)
    requires IsRun(es, ss) && Shaped(ss[|es|]) && Step(e, ss[|es|], t)
    ensures IsRun(es + [e], ss + [t]) && |ss| == |es| + 1 && (ss + [t])[|es + [e]|] == t
  {
    hide Step, Init;
  }

  lemma Finished(e: Event, s: State, t: State)
    requires Protocol(s) && Step(e, s, t) && s.leader != Nobody
    ensures t.number == if t.leader == Nobody then s.number + 1 else s.number
  {
    hide Ok, Arrive;
    assert ThreadOk(s, e.i);
  }

  lemma StillShaped(s: State)
    requires Protocol(s)
    ensures Shaped(s)
  {}

  /** A tick that is being handled can be finished. */
  lemma {:induction false} FinishTick(es: seq<Event>, ss: seq<State>) returns (more: seq<Event>, states: seq<State>)
    requires IsRun(es, ss) && ss[|es|].leader != Nobody && Shaped(ss[|es|])
    ensures es <= more && ss <= states && IsRun(more, states)
    ensures states[|more|].leader == Nobody && states[|more|].number == ss[|es|].number + 1
    decreases Measure(ss[|es|])
  {
    hide IsRun, Files, Step, Measure, Protocol;
    RunInv(es, ss, |es|);
    var s := ss[|es|];
    Movable(s);
    var e: Event, t: State :| !e.RunGuest? && !e.Tick? && !e.DumpMem? && Step(e, s, t);
    more, states := es + [e], ss + [t];
    Extend(es, ss, e, t);
    RunInv(more, states, |more|);
    assert Shaped(t) by { StillShaped(t); }
    Finished(e, s, t);
    if t.leader != Nobody {
      StepCloser(e, s, t);
      more, states := FinishTick(more, states);
    }
  }

  /** Between ticks every thread is in the guest or free to return to it. */
  lemma Idle(s: State, i: nat)
    requires Protocol(s) && s.leader == Nobody && i < |s.pcs|
    ensures s.pcs[i] == Guest || (s.pcs[i] == Wait2 && Passed(s.barrier, i))
  {
    var j := Missing(s.barrier);
    assert ThreadOk(s, i) && ThreadOk(s, j);
  }

  /** Any thread can then take the next tick. */
  lemma StartTick(es: seq<Event>, ss: seq<State>, i: nat) returns (more: seq<Event>, states: seq<State>)
    requires IsRun(es, ss) && ss[|es|].leader == Nobody && i < |ss[|es|].pcs|
    ensures es <= more && ss <= states && IsRun(more, states) && Shaped(states[|more|])
    ensures states[|more|].leader == Thread(i) && states[|more|].number == ss[|es|].number
  {
    hide IsRun, Files;
    RunInv(es, ss, |es|);
    Idle(ss[|es|], i);
    more, states := es, ss;
    var s := ss[|es|];
    if s.pcs[i] != Guest {
      s := At(s, i, Guest);
      assert Step(Leave(i), ss[|es|], s);
      Extend(es, ss, Leave(i), s);
      more, states := es + [Leave(i)], ss + [s];
    }
    var t := At(s, i, Signal(0)).(leader := Thread(i));
    assert Step(Tick(i), s, t);
    Extend(more, states, Tick(i), t);
    more, states := more + [Tick(i)], states + [t];
  }

  /** Whatever has happened, the next checkpoint can be completed. */
  lemma NextCheckpoint(es: seq<Event>, ss: seq<State>) returns (more: seq<Event>, states: seq<State>)
    requires IsRun(es, ss)
    ensures es <= more && ss <= states && IsRun(more, states) && states[|more|].number == ss[|es|].number + 1
  {
    RunInv(es, ss, |es|);
    hide IsRun, Files, Protocol;
    more, states := es, ss;
    if ss[|es|].leader == Nobody { more, states := StartTick(es, ss, 0); }
    more, states := FinishTick(more, states);
  }

  /** For any number of threads some run takes any number of checkpoints. */
  lemma {:induction false} SomeCheckpoints(n: nat, count: nat) returns (es: seq<Event>, ss: seq<State>)
    requires n > 0
    ensures IsRun(es, ss) && |ss[0].pcs| == n && ss[|es|].number == count
  {
    hide Step;
    if count == 0 {
      es, ss := [], [State(seq(n, i => Guest), seq(n, i => 0), New(n), Nobody, 0, 0, {})];
    } else {
      var fs, ts := SomeCheckpoints(n, count - 1);
      es, ss := NextCheckpoint(fs, ts);
    }
  }
}
