/** The rings make progress (uhyve.c:234-257, 264-287): neither side gets stuck, an
    announced packet is handled, and a slot that is free is used. */
module RingProgress {
  import opened Ring

  predicate ByConsumer(e: Event) {
    e in {Wait, LoadReadC, LoadWrittenC, CheckAny, TakeLen, TakeData, Free}
  }

  /** An awake consumer, or one whose semaphore is up, can take its next step. */
  lemma ConsumerMoves(s: State) returns (e: Event, t: State)
    requires Inv(s) && (s.cons.Waiting? ==> s.sem > 0)
    ensures ByConsumer(e) && Step(e, s, t)
  {
    hide Counter, SlotOf, Distance, Inc;
    match s.cons {
      case Waiting => e, t := Wait, s.(cons := Woken, sem := s.sem - 1);
      case Woken => e, t := LoadReadC, s.(cons := LoadedRead(s.read));
      case LoadedRead(r) => e, t := LoadWrittenC, s.(cons := LoadedBoth(r, s.written, |s.produced|));
      case LoadedBoth(r, w, wn) =>
        if Distance(w, r) == 0 {
          e, t := CheckAny, s.(cons := Waiting);
        } else {
          e, t := TakeLen, s.(cons := Taking(r, s.slots[SlotOf(r)].len));
        }
      case Taking(r, len) =>
        e, t := TakeData, s.(cons := Taken, consumed := s.consumed + [Slot(len, s.slots[SlotOf(r)].data)]);
      case Taken => e, t := Free, s.(cons := Waiting, read := Inc(s.read), freed := s.freed + 1);
    }
  }

  /** The same for a producer, always: it polls while the ring is full. */
  lemma ProducerMoves(s: State) returns (e: Event, t: State)
    requires Inv(s)
    ensures !ByConsumer(e) && Step(e, s, t)
  {
    hide Counter, Distance, Inc;
    match s.prod {
      case Idle => e, t := LoadReadP, s.(prod := SawRead(s.read, s.freed));
      case SawRead(r, rn) => e, t := LoadWrittenP, s.(prod := SawBoth(r, s.written, rn));
      case SawBoth(r, w, rn) => e, t := CheckRoom, s.(prod := if Distance(w, r) < QUEUE_SIZE then HasRoom(w) else Idle);
      case HasRoom(w) =>
        var i := SlotOf(w);
        e, t := FillData([]), s.(prod := Filled(w), slots := s.slots[i := s.slots[i].(data := [])]);
      case Filled(w) =>
        var i := SlotOf(w);
        e, t := SetLen(0), s.(prod := Sized(w), slots := s.slots[i := s.slots[i].(len := 0)]);
      case Sized(w) =>
        e := Publish;
        t := s.(prod := Announcing, written := Inc(s.written), produced := s.produced + [s.slots[SlotOf(w)]]);
      case Announcing => e, t := Post, s.(prod := Idle, sem := s.sem + 1);
    }
  }

  /** A consumer takes a packet exactly if one was published when it looked. */
  lemma TakesIffThere(s: State, t: State)
    requires Inv(s) && s.cons.LoadedBoth?
    ensures Step(TakeLen, s, t) ==> s.freed < s.cons.wn && t.cons == Taking(s.cons.r, s.produced[s.freed].len)
    ensures Step(CheckAny, s, t) ==> s.freed == s.cons.wn
  {
    CounterDistance(s.first, s.cons.wn, s.freed);
    hide Counter, SlotOf, Distance, Inc;
    assert s.freed < |s.produced| ==> s.slots[SlotOf(Counter(s.first, s.freed))] == s.produced[s.freed];
  }

  /** A producer finds room exactly if fewer than 8 packets were unread when it looked;
      with a current view of `read`, exactly if fewer than 8 are unread. */
  lemma RoomIff(s: State, t: State)
    requires Inv(s) && s.prod.SawBoth? && Step(CheckRoom, s, t)
    ensures t.prod == if |s.produced| - s.prod.rn < 8 then HasRoom(s.written) else Idle
    ensures s.prod.r == s.read ==> s.prod.rn == s.freed
  {
    CounterDistance(s.first, |s.produced|, s.prod.rn);
    CounterDistance(s.first, s.freed, s.prod.rn);
    hide Counter, SlotOf, Inc;
    if s.prod.r == s.read { SelfDistance(s.read); }
  }

  lemma SelfDistance(c: nat)
    requires c < TWO_64
    ensures Distance(c, c) == 0
  {}

  // ------------------------------------------------------------ draining

  /** How many steps the consumer can take before it must wait. */
  function Measure(s: State): nat {
    7 * s.sem + match s.cons
                case Waiting => 0 case Woken => 6 case LoadedRead(_) => 5 case LoadedBoth(_, _, _) => 4
                case Taking(_, _) => 3 case Taken => 2
  }

  lemma ConsumerCloser(e: Event, s: State, t: State)
    requires |s.slots| == QUEUE_SIZE && ByConsumer(e) && Step(e, s, t)
    ensures Measure(t) < Measure(s)
    ensures t.prod == s.prod && t.produced == s.produced
  {
    hide Counter, SlotOf, Distance, Inc;
  }

  /** States linked by steps of the consumer alone. */
  ghost predicate ConsumerPath(path: seq<State>) {
    path != [] && forall i :: 0 <= i < |path| - 1 ==> ConsumerStep(path[i], path[i + 1])
  }

  ghost predicate ConsumerStep(s: State, t: State) {
    |s.slots| == QUEUE_SIZE && exists e :: ByConsumer(e) && Step(e, s, t)
  }

  /** While the producer rests the consumer takes at most Measure steps. */
  lemma {:induction false} ConsumerRests(path: seq<State>)
    requires ConsumerPath(path)
    ensures |path| - 1 + Measure(path[|path| - 1]) <= Measure(path[0])
    decreases |path|
  {
    hide Measure;
    if |path| > 1 {
      var n := |path| - 2;
      assert ConsumerStep(path[n], path[n + 1]);
      var e :| ByConsumer(e) && Step(e, path[n], path[n + 1]);
      ConsumerCloser(e, path[n], path[n + 1]);
      hide *;
      ConsumerRests(path[..n + 1]) by { PathPrefix(path); }
    }
  }

  lemma PathPrefix(path: seq<State>)
    requires ConsumerPath(path) && |path| > 1
    ensures ConsumerPath(path[..|path| - 1])
  {
    hide ConsumerStep;
    var p := path[..|path| - 1];
    forall i | 0 <= i < |p| - 1 ensures ConsumerStep(p[i], p[i + 1]) {
      assert ConsumerStep(path[i], path[i + 1]);
    }
  }

  /** Where it can take none any more, every published packet has been handled. */
  lemma RestingIsDone(states: seq<State>, i: nat)
    requires IsRun(states) && i < |states| && states[i].prod.Idle?
    requires forall t :: !ConsumerStep(states[i], t)
    ensures states[i].cons.Waiting? && states[i].sem == 0 && states[i].consumed == states[i].produced
  {
    hide *;
    RunInv(states, i);
    var s := states[i];
    if !s.cons.Waiting? || s.sem > 0 {
      var e, t := ConsumerMoves(s);
      Stepped(e, s, t);
    } else {
      NoLostDoorbell(states, i);
    }
  }

  lemma Stepped(e: Event, s: State, t: State)
    requires Inv(s) && ByConsumer(e) && Step(e, s, t)
    ensures ConsumerStep(s, t)
  {
    hide Step, Counter;
  }

  /** Both together: from every reachable state in which the producer rests, the
      consumer's own steps lead to a state in which it has handled every packet. */
  lemma {:induction false} Drains(states: seq<State>, i: nat) returns (t: State, path: seq<State>)
    requires IsRun(states) && i < |states| && states[i].prod.Idle?
    ensures path != [] && ConsumerPath(path) && path[0] == states[i] && path[|path| - 1] == t
    ensures t.consumed == t.produced == states[i].produced && t.cons.Waiting? && t.sem == 0
    decreases Measure(states[i])
  {
    hide *;
    RunInv(states, i);
    var s := states[i];
    if s.cons.Waiting? && s.sem == 0 {
      t, path := s, [s];
      NoLostDoorbell(states, i);
      OneState(s);
    } else {
      var e, n := ConsumerMoves(s);
      SlotsThere(s);
      ConsumerCloser(e, s, n);
      Stepped(e, s, n);
      var longer := states[..i + 1] + [n];
      Extended(states, i, e, n);
      var rest;
      t, rest := Drains(longer, i + 1);
      path := [s] + rest;
      PathCons(s, rest);
    }
  }

  lemma SlotsThere(s: State)
    requires Inv(s)
    ensures |s.slots| == QUEUE_SIZE
  {
    hide Counter;
  }

  lemma OneState(s: State)
    ensures ConsumerPath([s])
  {}

  lemma PathCons(s: State, rest: seq<State>)
    requires ConsumerPath(rest) && ConsumerStep(s, rest[0])
    ensures ConsumerPath([s] + rest)
  {
    hide ConsumerStep;
    var p := [s] + rest;
    forall i | 0 <= i < |p| - 1 ensures ConsumerStep(p[i], p[i + 1]) {
      if i > 0 { assert p[i] == rest[i - 1] && p[i + 1] == rest[i]; }
    }
  }

  lemma Extended(states: seq<State>, i: nat, e: Event, n: State)
    requires IsRun(states) && i < |states| && |states[i].slots| == QUEUE_SIZE && Step(e, states[i], n)
    ensures IsRun(states[..i + 1] + [n])
  {
    hide Step, Init;
    var longer := states[..i + 1] + [n];
    forall k | 0 <= k < |longer| - 1 ensures Next(longer[k], longer[k + 1]) {
      if k < i { assert Next(states[k], states[k + 1]); }
    }
  }
}
