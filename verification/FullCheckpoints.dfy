/** HERMIT_FULLCHECKPOINT: bits are never cleared (uhyve-x86_64.c:728, 737), so
    the newest file alone replaces the whole chain (uhyve-x86_64.c:1063). */
module FullCheckpoints {
  import opened Scan
  import opened Records
  import opened FrozenScan
  import opened Checkpoints

  /** Some record of the file holds word `w`. */
  ghost predicate HitBy(file: seq<Record>, w: nat) {
    exists r :: r in file && Hits(r, w)
  }

  ghost function Accessed(): Mode { ModeOf(true, 0) }

  /** File k is the full scan of snapshot k. */
  ghost predicate Dumped(c: Config, file: seq<Record>, snap: Memory) {
    && SameShape(snap, c.shape, c.Tables())
    && UpToDate(c, snap, Zero(|c.shape|), Accessed())
    && PagesFit(snap, c.Leaves())
    && file == ScanVisits(snap, c.Leaves(), Accessed()).1
  }

  /** Whatever one file holds is still selected now and by all later files. */
  ghost predicate Grows(c: Config, s: State) {
    && |s.snaps| == |s.files|
    && (forall k :: 0 <= k < |s.files| ==> Dumped(c, s.files[k], s.snaps[k]))
    && (forall k, w :: 0 <= k < |s.files| && HitBy(s.files[k], w) ==> Pending(s.mem, c.Leaves(), Accessed(), w))
    && (forall k, j, w :: 0 <= k <= j < |s.files| && HitBy(s.files[k], w) ==> HitBy(s.files[j], w))
  }

  /** A full scan saves exactly the words below accessed leaves. */
  lemma SavedIffPending(c: Config, m: Memory, w: nat)
    requires ValidConfig(c) && SameShape(m, c.shape, c.Tables())
    ensures PagesFit(m, c.Leaves())
    ensures HitBy(ScanVisits(m, c.Leaves(), Accessed()).1, w) <==> Pending(m, c.Leaves(), Accessed(), w)
  {
    hide Visits, Reads, ScanVisits;
    ShapeFacts(c, m);
    var rs := ScanVisits(m, c.Leaves(), Accessed()).1;
    if Pending(m, c.Leaves(), Accessed(), w) {
      var v :| v in c.Leaves() && Covers(m, v, w) && Flagged(At(m, v.loc), Accessed());
      ScanComplete(m, c.Leaves(), Accessed(), v, w);
    }
    if HitBy(rs, w) {
      var r :| r in rs && Hits(r, w);
      RecordFaithful(m, c.Leaves(), Accessed(), {}, r);
      var v :| v in c.Leaves() && Flagged(m[v.loc], Accessed()) && Dest(r.entry) == Start(m, v) && |r.page| == Size(v);
      assert Covers(m, v, w);
    }
  }

  lemma RunGrows(c: Config, s: State, t: State)
    requires ValidConfig(c) && Inv(c, s) && Grows(c, s) && Step(c, Run, s, t)
    ensures Grows(c, t)
  {
    hide Visits, Reads, ScanVisits, Load, UpToDate;
    ShapeFacts(c, s.mem);
    ShapeFacts(c, t.mem);
    forall w | Pending(s.mem, c.Leaves(), Accessed(), w) ensures Pending(t.mem, c.Leaves(), Accessed(), w) {
      var v :| v in c.Leaves() && Covers(s.mem, v, w) && Flagged(At(s.mem, v.loc), Accessed());
      assert LeafShape(c, s.mem, v) && LeafShape(c, t.mem, v);
      assert Covers(t.mem, v, w) && Flagged(At(t.mem, v.loc), Accessed());
    }
  }

  lemma DumpGrows(c: Config, s: State, t: State)
    requires ValidConfig(c) && c.full && Inv(c, s) && Grows(c, s) && Step(c, Dump, s, t)
    ensures Grows(c, t)
  {
    hide Visits, Reads, ScanVisits, Load, UpToDate, Pending, HitBy;
    ShapeFacts(c, s.mem);
    var n := |s.files|;
    assert ModeOf(c.full, s.confirmed) == Accessed();
    assert t.files[n] == ScanVisits(s.mem, c.Leaves(), Accessed()).1;
    forall w: nat | w < |s.mem| ensures t.mem[w] == s.mem[w] {
      ScanTouches(s.mem, c.Leaves(), Accessed(), w);
    }
    assert t.mem == s.mem;
    forall w ensures HitBy(t.files[n], w) <==> Pending(s.mem, c.Leaves(), Accessed(), w) {
      SavedIffPending(c, s.mem, w);
    }
    forall k | 0 <= k <= n ensures Dumped(c, t.files[k], t.snaps[k]) {
      if k < n {
        assert Dumped(c, s.files[k], s.snaps[k]);
      }
    }
  }

  lemma RestartGrows(c: Config, s: State, t: State)
    requires ValidConfig(c) && c.full && Inv(c, s) && Grows(c, s) && Step(c, Restart, s, t)
    ensures Grows(c, t)
  {
    hide Visits, Reads, ScanVisits, Load, HitBy;
    var n := s.confirmed - 1;
    assert Dumped(c, s.files[n], s.snaps[n]);
    ShapeFacts(c, s.snaps[n]);
    forall k, w | 0 <= k < |t.files| && HitBy(t.files[k], w) ensures Pending(t.mem, c.Leaves(), Accessed(), w) {
      assert HitBy(s.files[k], w) && HitBy(s.files[n], w);
      SavedIffPending(c, s.snaps[n], w);
      var v :| v in c.Leaves() && Covers(s.snaps[n], v, w) && Flagged(At(s.snaps[n], v.loc), Accessed());
      LeafRestored(c, s.snaps[n], v);
      assert t.mem == Load(Zero(|c.shape|), s.files[n]);
      assert Covers(t.mem, v, w);
    }
    forall k | 0 <= k < |t.files| ensures Dumped(c, t.files[k], t.snaps[k]) {
      assert Dumped(c, s.files[k], s.snaps[k]);
    }
  }

  lemma {:induction false} RunGrown(c: Config, states: seq<State>, events: seq<Event>, i: nat)
    requires ValidConfig(c) && c.full && IsRun(c, states, events) && i < |states|
    ensures Inv(c, states[i]) && Grows(c, states[i])
  {
    RunInv(c, states, events, i);
    if i > 0 {
      RunGrown(c, states, events, i - 1);
      RunStep(c, states, events, i - 1);
      hide *;
      GrowsStep(c, events[i - 1], states[i - 1], states[i]);
    }
  }

  lemma GrowsStep(c: Config, e: Event, s: State, t: State)
    requires ValidConfig(c) && c.full && Inv(c, s) && Grows(c, s) && Step(c, e, s, t)
    ensures Grows(c, t)
  {
    match e
    case Run => RunGrows(c, s, t);
    case Dump => DumpGrows(c, s, t);
    case Commit =>
      assert t.mem == s.mem && t.files == s.files && t.snaps == s.snaps;
    case Restart => RestartGrows(c, s, t);
  }

  /** Over a base, a loaded word that some record holds does not depend on the base. */
  lemma {:induction false} LoadForgets(a: Memory, b: Memory, rs: seq<Record>, w: nat)
    requires AllFit(rs, |a|) && |a| == |b| && w < |a|
    ensures HitBy(rs, w) ==> Load(a, rs)[w] == Load(b, rs)[w]
    ensures !HitBy(rs, w) ==> Load(a, rs)[w] == a[w]
  {
    if rs != [] {
      var k := |rs| - 1;
      assert rs[k] in rs && forall r :: r in rs[..k] ==> r in rs;
      LoadForgets(a, b, rs[..k], w);
      assert HitBy(rs, w) <==> HitBy(rs[..k], w) || Hits(rs[k], w) by {
        assert rs == rs[..k] + [rs[k]];
        if HitBy(rs[..k], w) {
          var r :| r in rs[..k] && Hits(r, w);
          assert r in rs;
        }
      }
      hide HitBy;
    }
  }

  lemma {:induction false} ChainHit(files: seq<seq<Record>>, w: nat)
    requires forall k :: 0 <= k < |files| ==> !HitBy(files[k], w)
    ensures !HitBy(Chain(files), w)
  {
    if files != [] {
      ChainHit(files[..|files| - 1], w);
      assert !HitBy(files[|files| - 1], w);
    }
  }

  /** Loading a file that holds whatever earlier files hold hides them. */
  lemma ChainForgets(zero: Memory, files: seq<seq<Record>>, last: seq<Record>)
    requires forall k :: 0 <= k < |files| ==> AllFit(files[k], |zero|)
    requires AllFit(last, |zero|)
    requires forall k, w :: 0 <= k < |files| && HitBy(files[k], w) ==> HitBy(last, w)
    ensures AllFit(Chain(files + [last]), |zero|)
    ensures Load(zero, last) == Load(zero, Chain(files + [last]))
  {
    hide *;
    ChainFits(files, |zero|);
    ChainSnoc(files, last);
    LoadConcat(zero, Chain(files), last);
    forall w: nat | w < |zero| ensures Load(zero, last)[w] == Load(Load(zero, Chain(files)), last)[w] {
      if !HitBy(last, w) {
        ChainHit(files, w);
      }
      WordForgets(zero, Chain(files), last, w);
    }
  }

  lemma ChainSnoc(files: seq<seq<Record>>, last: seq<Record>)
    ensures Chain(files + [last]) == Chain(files) + last
  {
    assert (files + [last])[..|files|] == files;
  }

  lemma WordForgets(zero: Memory, chain: seq<Record>, last: seq<Record>, w: nat)
    requires AllFit(chain, |zero|) && AllFit(last, |zero|) && w < |zero|
    requires HitBy(chain, w) ==> HitBy(last, w)
    ensures Load(zero, last)[w] == Load(Load(zero, chain), last)[w]
  {
    hide Load, HitBy, Fits;
    var before := Load(zero, chain);
    LoadForgets(before, zero, last, w);
    LoadForgets(zero, before, last, w);
    LoadForgets(zero, zero, chain, w);
  }

  /** In every state a full-checkpoint run reaches, loading only file n builds
      the very memory that loading files 0..n would build. */
  lemma NewestFileSuffices(c: Config, states: seq<State>, events: seq<Event>, i: nat, n: nat)
    requires ValidConfig(c) && c.full && IsRun(c, states, events) && i < |states|
    requires n < |states[i].files|
    ensures AllFit(states[i].files[n], |c.shape|) && AllFit(Chain(states[i].files[..n + 1]), |c.shape|)
    ensures Load(Zero(|c.shape|), states[i].files[n]) == Load(Zero(|c.shape|), Chain(states[i].files[..n + 1]))
  {
    hide *;
    RunGrown(c, states, events, i);
    FilesGrow(c, states[i], n);
    var files := states[i].files;
    ZeroSize(|c.shape|);
    assert files[..n] + [files[n]] == files[..n + 1];
    ChainForgets(Zero(|c.shape|), files[..n], files[n]);
  }

  lemma ZeroSize(n: nat)
    ensures |Zero(n)| == n
  {
  }

  lemma FilesGrow(c: Config, s: State, n: nat)
    requires Inv(c, s) && Grows(c, s) && n < |s.files|
    ensures forall k :: 0 <= k <= n ==> AllFit(s.files[k], |c.shape|)
    ensures forall k, w :: 0 <= k < n && HitBy(s.files[..n][k], w) ==> HitBy(s.files[n], w)
  {
    assert forall k :: 0 <= k < n ==> s.files[..n][k] == s.files[k];
  }
}
