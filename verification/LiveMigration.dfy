/** RDMA migration (uhyve-migration-rdma.c:692-983, uhyve-x86_64.c:704-745,
    908-985) as a step system: the guest keeps running while leaves are cleared,
    taken in hand, looked up among the registered regions, queued and copied word
    by word. A cold migration starts at the final scan. */
module LiveMigration {
  import opened Scan
  import opened FreeList
  import opened Regions
  import opened Checkpoints

  const MIG_ITERS: nat := 4

  /** A migration of the guest `c`; `regions` are what init_com_hndl registers. */
  datatype Migration = Migration(c: Config, mode: Mode, regions: seq<Chunk>) {
    ghost function Leaves(): seq<Visit> { c.Leaves() }
    ghost function Tables(): set<nat> { c.Tables() }
  }

  datatype Phase = Scanning | Copying | Stopping | FinalScan | FinalCopy | Done

  /** `hand` is the leaf whose bits are already cleared but whose work request is
      not yet appended; `queue` holds the words of posted or listed requests. After
      a `fault` the queue pair is in its error state. */
  datatype Live = Live(mem: Memory, dest: Memory, queue: seq<nat>, hand: seq<Visit>,
                       pos: nat, round: nat, phase: Phase, fault: bool)

  datatype Event = GuestRun | Test | Enqueue | EndScan | Copy(i: nat) | Drop(i: nat) | EndCopy | Freeze

  function Words(from: nat, n: nat): (ws: seq<nat>)
    ensures |ws| == n && forall w :: w in ws <==> from <= w < from + n
    decreases n
  {
    if n == 0 then [] else [from] + Words(from + 1, n - 1)
  }

  /** First byte and length of a leaf's page. */
  function PageAddr(m: Memory, v: Visit): nat { 8 * Start(m, v) }

  function PageBytes(v: Visit): nat { 8 * Size(v) }

  function Unqueued(q: seq<nat>, i: nat): seq<nat>
    requires i < |q|
  {
    q[..i] + q[i + 1..]
  }

  /** create_send_list_entry: a page that starts in no region is only reported; one
      that leaves its region is listed and makes the queue pair fail. */
  function Enqueued(g: Migration, s: Live): Live
    requires s.hand != []
  {
    var v := s.hand[0];
    var x := PageAddr(s.mem, v);
    s.(hand := [], pos := s.pos + 1,
       queue := s.queue + if Listed(g.regions, x) then Words(Start(s.mem, v), Size(v)) else [],
       fault := s.fault || Overruns(g.regions, x, PageBytes(v)))
  }

  ghost predicate Step(g: Migration, e: Event, s: Live, t: Live) {
    var vs := g.Leaves();
    match e
    case GuestRun => // vCPUs run until they are stopped
      s.phase in {Scanning, Copying, Stopping} && Progress(g.c, s.mem, t.mem) && t == s.(mem := t.mem)
    case Test => // test and clear one entry
      && s.phase in {Scanning, FinalScan} && s.hand == [] && s.pos < |vs|
      && vs[s.pos].loc < |s.mem|
      && t == if Flagged(s.mem[vs[s.pos].loc], g.mode)
              then s.(mem := ClearLeaf(s.mem, vs[s.pos], g.mode), hand := [vs[s.pos]])
              else s.(pos := s.pos + 1)
    case Enqueue => s.hand != [] && t == Enqueued(g, s)
    case EndScan =>
      && s.phase in {Scanning, FinalScan} && s.hand == [] && s.pos == |vs|
      && t == s.(phase := if s.phase == FinalScan then FinalCopy else if s.queue == [] then Stopping else Copying)
    case Copy(i) => // the adapter moves one word of some outstanding request
      && s.phase in {Copying, FinalCopy} && i < |s.queue| && s.queue[i] < |s.mem| == |s.dest|
      && t == s.(dest := s.dest[s.queue[i] := s.mem[s.queue[i]]], queue := Unqueued(s.queue, i))
    case Drop(i) => // after a fault requests are refused or flushed
      s.phase in {Copying, FinalCopy} && s.fault && i < |s.queue| && t == s.(queue := Unqueued(s.queue, i))
    case EndCopy => // process_send_list returns; termination_criterion counts the round
      && s.phase in {Copying, FinalCopy} && s.queue == []
      && t == if s.phase == FinalCopy then s.(phase := Done)
              else s.(round := s.round + 1, pos := 0, phase := if s.round + 1 == MIG_ITERS then Stopping else Scanning)
    case Freeze => // all vCPUs wait at the migration barrier
      s.phase == Stopping && t == s.(phase := FinalScan, pos := 0)
  }

  /** Nothing scanned yet. */
  ghost predicate Fresh(g: Migration, s: Live, first: Phase) {
    && s.phase == first && s.pos == 0 && s.round == 0 && s.queue == [] && s.hand == [] && !s.fault
    && SameShape(s.mem, g.c.shape, g.Tables()) && |s.dest| == |g.c.shape|
  }

  predicate Frozen(p: Phase) {
    p in {FinalScan, FinalCopy, Done}
  }

  /** Leaf `v`'s page holds word `w` and passes the region lookup. */
  predicate Sends(g: Migration, v: Visit, w: nat) {
    Covers(g.c.shape, v, w) && Whole(g.regions, PageAddr(g.c.shape, v), PageBytes(v))
  }

  /** The scan will find leaf `j` flagged if the guest stays still: a frozen
      clearing scan takes only the first visit of an entry. */
  ghost predicate Picked(g: Migration, s: Live, j: nat) {
    && j < |g.Leaves()| && Flagged(At(s.mem, g.Leaves()[j].loc), g.mode)
    && (Frozen(s.phase) ==> s.phase == FinalScan && s.pos <= j)
    && (Frozen(s.phase) && g.mode.clear ==> forall k :: s.pos <= k < j ==> g.Leaves()[k].loc != g.Leaves()[j].loc)
  }

  /** Word `w` lies below a flagged leaf that will still be tested and sent. */
  ghost predicate Awaited(g: Migration, s: Live, w: nat) {
    exists j: nat :: Picked(g, s, j) && Sends(g, g.Leaves()[j], w)
  }

  /** The first round has still to test the first visit of some flagged entry that
      sends word `w`. */
  ghost predicate FirstAwaited(g: Migration, s: Live, w: nat) {
    s.phase == Scanning && s.round == 0
    && exists j: nat :: s.pos <= j && Picked(g, s, j) && FirstVisit(g, j) && Sends(g, g.Leaves()[j], w)
  }

  ghost predicate FirstVisit(g: Migration, j: nat)
    requires j < |g.Leaves()|
  {
    forall k: nat :: k < j ==> g.Leaves()[k].loc != g.Leaves()[j].loc
  }

  /** A word will still reach the destination, or is already there. The fixed part of a
      page-table word travels in the first round or not at all. */
  ghost predicate Safe(g: Migration, s: Live, w: nat) {
    || Similar(g.Tables(), w, At(s.dest, w), At(s.mem, w))
    || w in s.queue
    || (s.hand != [] && Sends(g, s.hand[0], w))
    || if w in g.Tables() && g.mode.clear && !Frozen(s.phase) then FirstAwaited(g, s, w) else Awaited(g, s, w)
  }

  predicate Overrunning(g: Migration, v: Visit) {
    Overruns(g.regions, PageAddr(g.c.shape, v), PageBytes(v))
  }

  /** No request that the migration will issue is refused. */
  ghost predicate Calm(g: Migration, s: Live) {
    && !s.fault
    && (s.hand != [] ==> !Overrunning(g, s.hand[0]))
    && forall j: nat :: Picked(g, s, j) ==> !Overrunning(g, g.Leaves()[j])
  }

  /** The bookkeeping of every reachable state. */
  ghost predicate Healthy(g: Migration, s: Live) {
    && SameShape(s.mem, g.c.shape, g.Tables()) && |s.dest| == |g.c.shape|
    && (s.hand != [] ==> s.phase in {Scanning, FinalScan} && s.pos < |g.Leaves()| && s.hand == [g.Leaves()[s.pos]])
    && (s.hand != [] && g.mode.clear && Frozen(s.phase) ==> !Flagged(At(s.mem, s.hand[0].loc), g.mode))
    && s.pos <= |g.Leaves()|
    && (s.phase in {Scanning, Copying} ==> s.round < MIG_ITERS)
    && s.round <= MIG_ITERS
    && (forall w :: w in s.queue ==> w < |g.c.shape|)
    && (s.phase in {Stopping, Done} ==> s.queue == [])
  }

  ghost predicate Inv(g: Migration, s: Live) {
    Healthy(g, s) && Calm(g, s) && forall w :: w in g.c.tracked ==> Safe(g, s, w)
  }

  /** No entry is visited both as a 2 MiB and as a 4 KiB leaf. */
  predicate OneSize(vs: seq<Visit>) {
    forall i, j :: 0 <= i < |vs| && 0 <= j < |vs| && vs[i].loc == vs[j].loc ==> vs[i].big == vs[j].big
  }

  /** Every page of the guest lies in a registered region. */
  ghost predicate AllRegistered(g: Migration) {
    forall v :: v in g.Leaves() ==> Whole(g.regions, PageAddr(g.c.shape, v), PageBytes(v))
  }

  /** A tracked word that is no page-table word, below leaf `v`. */
  ghost predicate Datum(g: Migration, v: Visit, w: nat) {
    w in g.c.tracked && w !in g.Tables() && Covers(g.c.shape, v, w)
  }

  /** Where an entry is visited in both sizes, its 4 KiB page holds all the data that
      the 2 MiB page holds. */
  ghost predicate Narrow(g: Migration) {
    forall v, w :: v in g.Leaves() && Visit(v.loc, false) in g.Leaves() && Datum(g, v, w) ==>
      Covers(g.c.shape, Visit(v.loc, false), w)
  }

  /** What a migration needs as long as the guest runs: all pages registered, and, if
      bits are cleared, no data that only the wider visit of an entry sends. */
  ghost predicate Ready(g: Migration, phase: Phase) {
    !Frozen(phase) ==> AllRegistered(g) && (g.mode.clear ==> Narrow(g))
  }

  lemma OneSizeNarrow(g: Migration)
    requires OneSize(g.Leaves())
    ensures Narrow(g)
  {
    hide Visits;
    forall v, w | v in g.Leaves() && Visit(v.loc, false) in g.Leaves() && Datum(g, v, w)
      ensures Covers(g.c.shape, Visit(v.loc, false), w)
    {
      var i: nat :| i < |g.Leaves()| && g.Leaves()[i] == v;
      var j: nat :| j < |g.Leaves()| && g.Leaves()[j] == Visit(v.loc, false);
      assert v == Visit(v.loc, false);
    }
  }

  /** A 2 MiB visit of an entry covers what its 4 KiB visit covers. */
  lemma WiderCovers(m: Memory, v: Visit, u: Visit, w: nat)
    requires v.loc == u.loc && (v.big ==> u.big) && Covers(m, v, w)
    ensures Covers(m, u, w)
  {}

  /** Any visit of an entry sends the data that another visit of it sends. */
  lemma SendsToo(g: Migration, i: nat, j: nat, w: nat)
    requires AllRegistered(g) && Narrow(g) && i < |g.Leaves()| && j < |g.Leaves()|
    requires g.Leaves()[i].loc == g.Leaves()[j].loc && Sends(g, g.Leaves()[j], w)
    requires w in g.c.tracked && w !in g.Tables()
    ensures Sends(g, g.Leaves()[i], w)
  {
    hide Visits, Lookup, Covers;
    var u, v := g.Leaves()[i], g.Leaves()[j];
    assert u in g.Leaves() && v in g.Leaves();
    if v.big && !u.big {
      assert u == Visit(v.loc, false);
    } else {
      WiderCovers(g.c.shape, v, u, w);
    }
  }

  // ------------------------------------------------------------ bookkeeping

  lemma UnqueuedWords(q: seq<nat>, i: nat)
    requires i < |q|
    ensures forall w :: w in Unqueued(q, i) ==> w in q
    ensures forall w :: w in q && w != q[i] ==> w in Unqueued(q, i)
  {
    forall k | 0 <= k < |q| && k != i ensures q[k] in Unqueued(q, i) {
      assert q[k] == Unqueued(q, i)[if k < i then k else k - 1];
    }
  }

  lemma HealthKept(g: Migration, e: Event, s: Live, t: Live)
    requires ValidConfig(g.c) && Healthy(g, s) && Step(g, e, s, t)
    ensures Healthy(g, t)
  {
    hide Visits, Reads, Lookup;
    ShapeFacts(g.c, s.mem);
    if s.pos < |g.Leaves()| {
      var v := g.Leaves()[s.pos];
      assert v in g.Leaves() && LeafShape(g.c, s.mem, v);
    }
    match e
    case Copy(i) => UnqueuedWords(s.queue, i);
    case Drop(i) => UnqueuedWords(s.queue, i);
    case _ =>
  }

  /** Flags and page addresses in a healthy state. */
  lemma LeafFacts(g: Migration, s: Live, j: nat)
    requires ValidConfig(g.c) && Healthy(g, s) && j < |g.Leaves()|
    ensures LeafShape(g.c, s.mem, g.Leaves()[j])
  {
    hide Visits, Reads;
    ShapeFacts(g.c, s.mem);
    assert g.Leaves()[j] in g.Leaves();
  }

  // ------------------------------------------------------------ safety

  /** A guest write at any moment leaves each tracked page flagged, in hand, queued or
      equal at the destination. */
  lemma RunKeeps(g: Migration, s: Live, t: Live)
    requires ValidConfig(g.c) && Inv(g, s) && Step(g, GuestRun, s, t) && Ready(g, s.phase)
    ensures Inv(g, t)
  {
    hide Visits, Reads, Lookup, Narrow;
    HealthKept(g, GuestRun, s, t);
    forall j: nat | Picked(g, s, j) ensures Picked(g, t, j) {
      LeafFacts(g, s, j);
    }
    forall w | w in g.c.tracked ensures Safe(g, t, w) {
      assert Safe(g, s, w);
      if w !in g.Tables() && At(t.mem, w) != At(s.mem, w) {
        var v :| v in g.Leaves() && Covers(g.c.shape, v, w) && At(t.mem, v.loc).accessed && At(t.mem, v.loc).dirty;
        var j: nat :| j < |g.Leaves()| && g.Leaves()[j] == v;
        assert Picked(g, t, j) && Sends(g, g.Leaves()[j], w);
      }
    }
    forall j: nat | Picked(g, t, j) ensures !Overrunning(g, g.Leaves()[j]) {
      assert g.Leaves()[j] in g.Leaves();
    }
  }

  /** A leaf that stays picked after the one at `pos` has been tested. */
  lemma StillPicked(g: Migration, s: Live, t: Live, j: nat)
    requires ValidConfig(g.c) && Healthy(g, s) && Step(g, Test, s, t) && Picked(g, s, j)
    ensures Picked(g, t, j) || g.Leaves()[j].loc == g.Leaves()[s.pos].loc
    ensures !Picked(g, t, j) && Frozen(s.phase) ==> j == s.pos && t.hand == [g.Leaves()[j]]
    ensures !Picked(g, t, j) ==> g.mode.clear && t.hand == [g.Leaves()[s.pos]]
  {
    hide Visits, Reads;
    LeafFacts(g, s, s.pos);
    LeafFacts(g, s, j);
  }

  /** Testing sets no flag. */
  lemma WasPicked(g: Migration, s: Live, t: Live, j: nat)
    requires ValidConfig(g.c) && Healthy(g, s) && Step(g, Test, s, t) && Picked(g, t, j)
    ensures Picked(g, s, j)
  {
    hide Visits, Reads;
    LeafFacts(g, s, s.pos);
    LeafFacts(g, s, j);
  }

  /** Clearing a leaf before handing it over loses no tracked page. */
  lemma TestKeeps(g: Migration, s: Live, t: Live)
    requires ValidConfig(g.c) && Inv(g, s) && Step(g, Test, s, t) && Ready(g, s.phase)
    ensures Inv(g, t)
  {
    hide Visits, Reads, Lookup, Narrow, Safe;
    HealthKept(g, Test, s, t);
    LeafFacts(g, s, s.pos);
    if t.hand != [] {
      assert Frozen(s.phase) ==> Picked(g, s, s.pos);
      assert !Frozen(s.phase) ==> g.Leaves()[s.pos] in g.Leaves();
    }
    forall j: nat | Picked(g, t, j) ensures !Overrunning(g, g.Leaves()[j]) {
      WasPicked(g, s, t, j);
    }
    forall w | w in g.c.tracked ensures Safe(g, t, w) {
      TestSafe(g, s, t, w);
    }
  }

  lemma TestSafe(g: Migration, s: Live, t: Live, w: nat)
    requires ValidConfig(g.c) && Inv(g, s) && Step(g, Test, s, t) && Ready(g, s.phase) && w in g.c.tracked
    ensures Safe(g, t, w)
  {
    hide Visits, Reads, Lookup, Narrow, Calm, AllRegistered, FirstAwaited, Awaited, Sends;
    assert Safe(g, s, w);
    LeafFacts(g, s, s.pos);
    if Similar(g.Tables(), w, At(s.dest, w), At(s.mem, w)) || w in s.queue {
    } else if w in g.Tables() && g.mode.clear && !Frozen(s.phase) {
      TestTableSafe(g, s, t, w);
    } else {
      TestPickSafe(g, s, t, w);
    }
  }

  lemma TestTableSafe(g: Migration, s: Live, t: Live, w: nat)
    requires ValidConfig(g.c) && Healthy(g, s) && Step(g, Test, s, t) && FirstAwaited(g, s, w)
    ensures FirstAwaited(g, t, w) || (t.hand != [] && Sends(g, t.hand[0], w))
  {
    hide Visits, Reads, Lookup, Sends;
    var j: nat :| s.pos <= j && Picked(g, s, j) && FirstVisit(g, j) && Sends(g, g.Leaves()[j], w);
    LeafFacts(g, s, s.pos);
    LeafFacts(g, s, j);
    if j > s.pos {
      assert Picked(g, t, j);
    }
  }

  lemma TestPickSafe(g: Migration, s: Live, t: Live, w: nat)
    requires ValidConfig(g.c) && Healthy(g, s) && Step(g, Test, s, t) && Awaited(g, s, w) && Ready(g, s.phase)
    requires w in g.c.tracked && (w in g.Tables() && g.mode.clear ==> Frozen(s.phase))
    ensures Awaited(g, t, w) || (t.hand != [] && Sends(g, t.hand[0], w))
  {
    hide Visits, Reads, Lookup, Narrow, AllRegistered, Sends, Healthy;
    var j: nat :| Picked(g, s, j) && Sends(g, g.Leaves()[j], w);
    StillPicked(g, s, t, j);
    if !Picked(g, t, j) && !Frozen(s.phase) {
      SendsToo(g, s.pos, j, w);
    }
  }

  /** Listing the page of a whole leaf queues all its words; others are never picked. */
  lemma EnqueueKeeps(g: Migration, s: Live, t: Live)
    requires ValidConfig(g.c) && Inv(g, s) && Step(g, Enqueue, s, t)
    ensures Inv(g, t)
  {
    hide Visits, Reads, Lookup;
    HealthKept(g, Enqueue, s, t);
    LeafFacts(g, s, s.pos);
    var v := s.hand[0];
    forall j: nat | Picked(g, t, j) ensures Picked(g, s, j) {
    }
    forall w | w in g.c.tracked ensures Safe(g, t, w) {
      assert Safe(g, s, w);
      if Sends(g, v, w) {
        assert w in Words(Start(s.mem, v), Size(v));
      } else if FirstAwaited(g, s, w) {
        var j: nat :| s.pos <= j && Picked(g, s, j) && FirstVisit(g, j) && Sends(g, g.Leaves()[j], w);
        assert j != s.pos && Picked(g, t, j);
      } else if Awaited(g, s, w) {
        var j: nat :| Picked(g, s, j) && Sends(g, g.Leaves()[j], w);
        assert Picked(g, t, j);
      }
    }
  }

  /** Copying queued words in any order keeps every page safe. */
  lemma CopyKeeps(g: Migration, s: Live, t: Live, i: nat)
    requires ValidConfig(g.c) && Inv(g, s) && Step(g, Copy(i), s, t)
    ensures Inv(g, t)
  {
    hide Visits, Reads, Lookup;
    HealthKept(g, Copy(i), s, t);
    UnqueuedWords(s.queue, i);
    forall w | w in g.c.tracked ensures Safe(g, t, w) {
      assert Safe(g, s, w);
      if Awaited(g, s, w) {
        var j: nat :| Picked(g, s, j) && Sends(g, g.Leaves()[j], w);
        assert Picked(g, t, j);
      }
    }
    forall j: nat | Picked(g, t, j) ensures Picked(g, s, j) {
    }
  }

  /** The first visit of an entry that is flagged when the guest stops. */
  lemma {:induction false} FirstPick(g: Migration, s: Live, j: nat) returns (i: nat)
    requires s.phase in {Scanning, FinalScan} && s.pos == 0 && j < |g.Leaves()|
    requires Flagged(At(s.mem, g.Leaves()[j].loc), g.mode)
    ensures Picked(g, s, i) && FirstVisit(g, i) && g.Leaves()[i].loc == g.Leaves()[j].loc && i <= j
  {
    hide Visits, Reads;
    if k: nat :| k < j && g.Leaves()[k].loc == g.Leaves()[j].loc {
      i := FirstPick(g, s, k);
    } else {
      i := j;
    }
  }

  /** It is the wide one, so it sends what any visit of the entry sends. */
  lemma FirstSends(g: Migration, i: nat, j: nat, w: nat)
    requires ValidConfig(g.c) && AllRegistered(g) && i <= j < |g.Leaves()|
    requires g.Leaves()[i].loc == g.Leaves()[j].loc && Sends(g, g.Leaves()[j], w)
    ensures Sends(g, g.Leaves()[i], w)
  {
    hide Visits, Reads, Lookup;
    assert g.Leaves()[i] in g.Leaves();
    WiderCovers(g.c.shape, g.Leaves()[j], g.Leaves()[i], w);
  }

  lemma PhaseKeeps(g: Migration, e: Event, s: Live, t: Live)
    requires ValidConfig(g.c) && Inv(g, s) && e in {EndScan, EndCopy, Freeze} && Step(g, e, s, t) && Ready(g, s.phase)
    ensures Inv(g, t)
  {
    hide Visits, Reads, Lookup, Narrow, Sends;
    HealthKept(g, e, s, t);
    forall w | w in g.c.tracked ensures Safe(g, t, w) {
      assert Safe(g, s, w);
      if Awaited(g, s, w) {
        var j: nat :| Picked(g, s, j) && Sends(g, g.Leaves()[j], w);
        if e == Freeze {
          var i := FirstPick(g, t, j);
          FirstSends(g, i, j, w);
        } else if !Frozen(s.phase) {
          assert Picked(g, t, j);
        }
      }
    }
    forall j: nat | Picked(g, t, j) ensures !Overrunning(g, g.Leaves()[j]) {
      if e == Freeze {
        assert g.Leaves()[j] in g.Leaves();
      } else {
        assert Picked(g, s, j);
      }
    }
  }
}
