/** The shared packet rings and the transmit doorbell (uhyve.c:229-310, 494-497;
    uhyve-net.h:24-55). One producer and one consumer run interleaved; the host
    produces on the receive ring and consumes on the transmit ring, the guest
    driver is taken to mirror it: fill, increment, then ring the doorbell. */
module Ring {
  const QUEUE_SIZE: nat := 8
  const MTU: nat := 1500
  const TWO_64: nat := 0x1_0000_0000_0000_0000

  datatype Slot = Slot(len: nat, data: seq<nat>)

  /** Locals of a thread between its accesses to shared memory. `r` and `w` are
      counter values it has loaded, `rn` and `wn` how many packets had been
      consumed and produced at that moment. */
  datatype Producer =
    | Idle
    | SawRead(r: nat, rn: nat)
    | SawBoth(r: nat, w: nat, rn: nat)
    | HasRoom(w: nat)
    | Filled(w: nat)
    | Sized(w: nat)
    | Announcing

  datatype Consumer =
    | Waiting
    | Woken
    | LoadedRead(r: nat)
    | LoadedBoth(r: nat, w: nat, wn: nat)
    | Taking(r: nat, len: nat)
    | Taken

  /** `first` is where both counters started; produced and consumed are the
      packets published and handled so far, freed counts increments of `read`. */
  datatype State = State(read: nat, written: nat, slots: seq<Slot>, sem: nat, prod: Producer, cons: Consumer,
                         first: nat, produced: seq<Slot>, consumed: seq<Slot>, freed: nat)

  function Distance(w: nat, r: nat): nat {
    (w + TWO_64 - r % TWO_64) % TWO_64
  }

  function Inc(c: nat): nat {
    (c + 1) % TWO_64
  }

  function SlotOf(c: nat): (slot: nat)
    ensures slot < QUEUE_SIZE
  {
    c % QUEUE_SIZE
  }

  datatype Event =
    | LoadReadP | LoadWrittenP | CheckRoom | FillData(data: seq<nat>) | FillNothing(data: seq<nat>)
    | SetLen(len: nat) | Publish | Post
    | Wait | LoadReadC | LoadWrittenC | CheckAny | TakeLen | TakeData | Free

  /** One access to shared memory or one semaphore operation. */
  predicate Step(e: Event, s: State, t: State)
    requires |s.slots| == QUEUE_SIZE
  {
    match e
    case LoadReadP => s.prod.Idle? && t == s.(prod := SawRead(s.read, s.freed))
    case LoadWrittenP => s.prod.SawRead? && t == s.(prod := SawBoth(s.prod.r, s.written, s.prod.rn))
    case CheckRoom =>
      s.prod.SawBoth?
      && t == s.(prod := if Distance(s.prod.w, s.prod.r) < QUEUE_SIZE then HasRoom(s.prod.w) else Idle)
    case FillData(data) =>
      s.prod.HasRoom?
      && t == s.(prod := Filled(s.prod.w),
                 slots := s.slots[SlotOf(s.prod.w) := s.slots[SlotOf(s.prod.w)].(data := data)])
    case FillNothing(data) => // read() failed or delivered nothing; the buffer may be scribbled on
      s.prod.HasRoom?
      && t == s.(prod := Idle, slots := s.slots[SlotOf(s.prod.w) := s.slots[SlotOf(s.prod.w)].(data := data)])
    case SetLen(len) =>
      s.prod.Filled?
      && t == s.(prod := Sized(s.prod.w),
                 slots := s.slots[SlotOf(s.prod.w) := s.slots[SlotOf(s.prod.w)].(len := len)])
    case Publish =>
      s.prod.Sized?
      && t == s.(prod := Announcing, written := Inc(s.written), produced := s.produced + [s.slots[SlotOf(s.prod.w)]])
    case Post => s.prod.Announcing? && t == s.(prod := Idle, sem := s.sem + 1)
    case Wait => s.cons.Waiting? && s.sem > 0 && t == s.(cons := Woken, sem := s.sem - 1)
    case LoadReadC => s.cons.Woken? && t == s.(cons := LoadedRead(s.read))
    case LoadWrittenC => s.cons.LoadedRead? && t == s.(cons := LoadedBoth(s.cons.r, s.written, |s.produced|))
    case CheckAny =>
      s.cons.LoadedBoth? && Distance(s.cons.w, s.cons.r) == 0 && t == s.(cons := Waiting)
    case TakeLen =>
      s.cons.LoadedBoth? && Distance(s.cons.w, s.cons.r) > 0
      && t == s.(cons := Taking(s.cons.r, s.slots[SlotOf(s.cons.r)].len))
    case TakeData =>
      s.cons.Taking?
      && t == s.(cons := Taken, consumed := s.consumed + [Slot(s.cons.len, s.slots[SlotOf(s.cons.r)].data)])
    case Free => s.cons.Taken? && t == s.(cons := Waiting, read := Inc(s.read), freed := s.freed + 1)
  }

  /** Empty queue, counters anywhere (a wraparound may be near), semaphore 1. */
  ghost predicate Init(s: State) {
    && |s.slots| == QUEUE_SIZE && s.first < TWO_64 && s.read == s.written == s.first
    && s.sem == 1 && s.prod == Idle && s.cons == Waiting
    && s.produced == [] && s.consumed == [] && s.freed == 0
  }

  // ------------------------------------------------------------ invariants

  /** The counter value after n packets. */
  function Counter(first: nat, n: nat): nat {
    (first + n) % TWO_64
  }

  lemma CounterInc(first: nat, n: nat)
    ensures Inc(Counter(first, n)) == Counter(first, n + 1)
  {
  }

  /** Within the queue size the modular distance is the true one, across any
      wraparound, and slots of different packets in the queue differ. */
  lemma CounterDistance(first: nat, m: nat, n: nat)
    requires n <= m <= n + QUEUE_SIZE
    ensures Distance(Counter(first, m), Counter(first, n)) == m - n
    ensures SlotOf(Counter(first, m)) == SlotOf(Counter(first, n)) <==> m == n || m == n + QUEUE_SIZE
  {
    var x, y, d := Counter(first, m), Counter(first, n), m - n;
    Wrap(first + n, d);
    hide Counter;
    if d < QUEUE_SIZE && x < y {
      assert x + TWO_64 - y == d;
    }
    SlotsApart(x, y, d);
  }

  lemma Wrap(a: nat, d: nat)
    requires d <= QUEUE_SIZE
    ensures (a + d) % TWO_64 == if a % TWO_64 + d < TWO_64 then a % TWO_64 + d else a % TWO_64 + d - TWO_64
  {
    var q, r := a / TWO_64, a % TWO_64;
    assert a == q * TWO_64 + r;
  }

  /** 2^64 is a multiple of the queue size. */
  lemma SlotsApart(x: nat, y: nat, d: nat)
    requires d <= QUEUE_SIZE && (x == y + d || x == y + d - TWO_64)
    ensures SlotOf(x) == SlotOf(y) <==> d == 0 || d == QUEUE_SIZE
  {}

  function Unread(s: State): int {
    |s.produced| - s.freed
  }

  ghost predicate Queue(s: State) {
    && |s.slots| == QUEUE_SIZE
    && s.read == Counter(s.first, s.freed) && s.written == Counter(s.first, |s.produced|)
    && 0 <= Unread(s) <= QUEUE_SIZE
    && |s.consumed| == s.freed + (if s.cons.Taken? then 1 else 0)
    && s.consumed <= s.produced
    && forall k :: s.freed <= k < |s.produced| ==> s.slots[SlotOf(Counter(s.first, k))] == s.produced[k]
  }

  ghost predicate ProducerOk(s: State) {
    match s.prod
    case Idle => true
    case Announcing => true
    case SawRead(r, rn) => rn <= s.freed && |s.produced| <= rn + QUEUE_SIZE && r == Counter(s.first, rn)
    case SawBoth(r, w, rn) =>
      && rn <= s.freed && |s.produced| <= rn + QUEUE_SIZE
      && r == Counter(s.first, rn) && w == s.written
    case HasRoom(w) => w == s.written && Unread(s) < QUEUE_SIZE
    case Filled(w) => w == s.written && Unread(s) < QUEUE_SIZE
    case Sized(w) => w == s.written && Unread(s) < QUEUE_SIZE
  }

  function Pend(s: State): nat {
    if s.prod.Announcing? then 1 else 0
  }

  /** Every unread packet is covered by a semaphore count, a wake in progress or
      the producer's pending post. */
  ghost predicate ConsumerOk(s: State) {
    match s.cons
    case Waiting => Unread(s) <= s.sem + Pend(s)
    case Woken => Unread(s) <= s.sem + Pend(s) + 1
    case LoadedRead(r) => Unread(s) <= s.sem + Pend(s) + 1 && r == s.read
    case LoadedBoth(r, w, wn) =>
      && Unread(s) <= s.sem + Pend(s) + 1 && r == s.read
      && s.freed <= wn <= |s.produced| && w == Counter(s.first, wn)
      && |s.produced| - wn <= s.sem + Pend(s)
    case Taking(r, len) =>
      && Unread(s) <= s.sem + Pend(s) + 1 && r == s.read
      && s.freed < |s.produced| && len == s.produced[s.freed].len
    case Taken => Unread(s) <= s.sem + Pend(s) + 1 && s.freed < |s.produced|
  }

  ghost predicate Inv(s: State) {
    Queue(s) && ProducerOk(s) && ConsumerOk(s)
  }

  /** The slot a producer writes holds no unread packet. */
  lemma WriteIsSafe(s: State, k: nat)
    requires Queue(s) && Unread(s) < QUEUE_SIZE && s.freed <= k < |s.produced|
    ensures SlotOf(s.written) != SlotOf(Counter(s.first, k))
  {
    CounterDistance(s.first, |s.produced|, k);
  }

  lemma InitInv(s: State)
    requires Init(s)
    ensures Inv(s)
  {
  }

  lemma ProducerKeeps(e: Event, s: State, t: State)
    requires Inv(s) && Step(e, s, t)
    requires !(e in {Wait, LoadReadC, LoadWrittenC, CheckAny, TakeLen, TakeData, Free})
    ensures Inv(t)
  {
    hide Counter, SlotOf, Distance, Inc;
    match e
    case CheckRoom => CounterDistance(s.first, |s.produced|, s.prod.rn);
    case FillData(_) => forall k | s.freed <= k < |s.produced| { WriteIsSafe(s, k); }
    case FillNothing(_) => forall k | s.freed <= k < |s.produced| { WriteIsSafe(s, k); }
    case SetLen(_) => forall k | s.freed <= k < |s.produced| { WriteIsSafe(s, k); }
    case Publish => CounterInc(s.first, |s.produced|);
    case _ =>
  }

  lemma ConsumerKeeps(e: Event, s: State, t: State)
    requires Inv(s) && Step(e, s, t)
    requires e in {Wait, LoadReadC, LoadWrittenC, CheckAny, TakeLen, TakeData, Free}
    ensures Inv(t)
  {
    hide Counter, SlotOf, Distance, Inc;
    match e
    case CheckAny => CounterDistance(s.first, s.cons.wn, s.freed);
    case TakeLen => CounterDistance(s.first, s.cons.wn, s.freed);
    case TakeData => assert s.produced[s.freed] == s.slots[SlotOf(s.read)];
    case Free => CounterInc(s.first, s.freed);
    case _ =>
  }

  // ------------------------------------------------------------ whole runs

  ghost predicate Next(s: State, t: State) {
    |s.slots| == QUEUE_SIZE && exists e :: Step(e, s, t)
  }

  ghost predicate IsRun(states: seq<State>) {
    states != [] && Init(states[0]) && forall i :: 0 <= i < |states| - 1 ==> Next(states[i], states[i + 1])
  }

  lemma {:induction false} RunInv(states: seq<State>, i: nat)
    requires IsRun(states) && i < |states|
    ensures Inv(states[i])
  {
    if i == 0 {
      InitInv(states[0]);
    } else {
      RunInv(states, i - 1);
      var s, t := states[i - 1], states[i];
      assert Next(states[i - 1], states[i - 1 + 1]);
      var e :| Step(e, s, t);
      hide *;
      if e in {Wait, LoadReadC, LoadWrittenC, CheckAny, TakeLen, TakeData, Free} {
        ConsumerKeeps(e, s, t);
      } else {
        ProducerKeeps(e, s, t);
      }
    }
  }

  /** Under any interleaving with stale loads and any wraparound: at most eight
      packets are in the ring, the modular counter distance is their number, and
      the handled packets are a prefix of the published ones. */
  lemma RingIsSafe(states: seq<State>, i: nat)
    requires IsRun(states) && i < |states|
    ensures var s := states[i];
            && s.consumed <= s.produced
            && 0 <= Unread(s) <= QUEUE_SIZE
            && Distance(s.written, s.read) == Unread(s)
            && |s.produced| - QUEUE_SIZE <= |s.consumed|
  {
    RunInv(states, i);
    var s := states[i];
    CounterDistance(s.first, |s.produced|, s.freed);
  }

  /** A producer that is about to write sees a slot whose packet is consumed. */
  lemma ProducerTouchesOnlyFreeSlots(states: seq<State>, i: nat, k: nat)
    requires IsRun(states) && i < |states|
    requires states[i].prod.HasRoom? || states[i].prod.Filled? || states[i].prod.Sized?
    requires states[i].freed <= k < |states[i].produced|
    ensures SlotOf(states[i].prod.w) != SlotOf(Counter(states[i].first, k))
  {
    RunInv(states, i);
    WriteIsSafe(states[i], k);
  }

  /** The transmit thread never blocks on an announced packet: when it waits at a
      zero semaphore, at most the packet whose post is still to come is unread. */
  lemma NoLostDoorbell(states: seq<State>, i: nat)
    requires IsRun(states) && i < |states|
    requires states[i].cons.Waiting? && states[i].sem == 0
    ensures Unread(states[i]) <= Pend(states[i])
    ensures !states[i].prod.Announcing? ==> states[i].consumed == states[i].produced
  {
    RunInv(states, i);
    var s := states[i];
    if !s.prod.Announcing? {
      assert s.consumed == s.produced[..|s.consumed|] == s.produced;
    }
  }

  // ------------------------------------------------------------ transmission

  /** What a handled packet puts on the wire: everything, or nothing when its
      length reaches the MTU. */
  function Wire(p: Slot): seq<nat>
    requires p.len < MTU ==> p.len <= |p.data|
  {
    if p.len >= MTU then [] else p.data[..p.len]
  }

  /** write() never fails for good. */
  ghost predicate Fair(answers: nat -> int) {
    forall k: nat :: Later(answers, k)
  }

  ghost predicate Later(answers: nat -> int, k: nat) {
    exists j: nat :: k <= j && answers(j) > 0
  }

  /** The write loop of transfer_packets: `answers` are the results of write(), each at
      most the rest and possibly nothing or an error; the loop retries until the packet
      is out. */
  method Transmit(p: Slot, answers: nat -> int) returns (out: seq<nat>)
    requires (p.len < MTU ==> p.len <= |p.data|) && Fair(answers)
    ensures out == Wire(p)
  {
    out := [];
    if p.len >= MTU {
      return;
    }
    var i, call := 0, 0;
    assert Later(answers, call);
    ghost var next: nat :| call <= next && answers(next) > 0;
    while i < p.len
      invariant i <= p.len && out == p.data[..i]
      invariant call <= next && answers(next) > 0
      decreases p.len - i, next - call
    {
      var ret := if answers(call) <= p.len - i then answers(call) else p.len - i;
      call := call + 1;
      if ret > 0 {
        out := out + p.data[i..i + ret];
        i := i + ret;
        assert Later(answers, call);
        next :| call <= next && answers(next) > 0;
      }
    }
  }
}
