/** What one frozen scan saves: the facts behind checkpoints and stop-and-copy. */
module FrozenScan {
  import opened Scan
  import opened Records

  /** No entry is taken as a 4 KiB leaf before it is taken as a 2 MiB leaf. */
  predicate WidestFirst(vs: seq<Visit>) {
    forall i, j :: 0 <= i < j < |vs| && vs[i].loc == vs[j].loc && vs[j].big ==> vs[i].big
  }

  /** The leaves lie in memory and 2 MiB leaves carry PSE. */
  ghost predicate GoodLeaves(m: Memory, vs: seq<Visit>) {
    PagesFit(m, vs) && forall v :: v in vs && v.big ==> At(m, v.loc).pse
  }

  /** A scan changes nothing but leaf words, and nothing at all when it does
      not clear. */
  lemma {:induction false} ScanTouches(m: Memory, vs: seq<Visit>, mode: Mode, w: nat)
    requires PagesFit(m, vs)
    requires mode.clear ==> forall v :: v in vs ==> v.loc != w
    ensures At(ScanVisits(m, vs, mode).0, w) == At(m, w)
  {
    if vs != [] {
      var k := |vs| - 1;
      assert vs[k] in vs && vs[k] in [vs[k]] && forall v :: v in vs[..k] ==> v in vs;
      ScanTouches(m, vs[..k], mode, w);
      hide VisitOne;
      VisitTouches(ScanVisits(m, vs[..k], mode).0, vs[k], mode, w);
    }
  }

  lemma VisitTouches(m: Memory, v: Visit, mode: Mode, w: nat)
    requires PagesFit(m, [v]) && (mode.clear ==> v.loc != w)
    ensures At(VisitOne(m, v, mode).0, w) == At(m, w)
  {
    assert v in [v];
  }

  lemma {:induction false} ScanExtends(m: Memory, vs: seq<Visit>, mode: Mode, k: nat)
    requires PagesFit(m, vs) && k <= |vs|
    ensures PagesFit(m, vs[..k])
    ensures ScanVisits(m, vs[..k], mode).1 <= ScanVisits(m, vs, mode).1
  {
    SubFits(m, vs, k);
    if k == |vs| {
      assert vs[..k] == vs;
    } else {
      var n := |vs| - 1;
      SubFits(m, vs, n);
      assert PagesFit(m, [vs[n]]) by { assert vs[n] in vs; }
      hide ScanVisits, VisitOne;
      ScanExtends(m, vs[..n], mode, k);
      assert vs[..n][..k] == vs[..k];
      ScanSnoc(m, vs[..n], vs[n], mode);
      assert vs[..n] + [vs[n]] == vs;
    }
  }

  lemma SubFits(m: Memory, vs: seq<Visit>, k: nat)
    requires PagesFit(m, vs) && k <= |vs|
    ensures PagesFit(m, vs[..k])
  {
    assert forall v :: v in vs[..k] ==> v in vs;
  }

  /** Every record carries the page a flagged leaf maps, as memory was when the
      scan began: exactly, except for ACCESSED and DIRTY bits of `tables`. */
  lemma {:induction false} RecordFaithful(m: Memory, vs: seq<Visit>, mode: Mode, tables: set<nat>, r: Record)
    requires GoodLeaves(m, vs) && r in ScanVisits(m, vs, mode).1
    requires mode.clear ==> forall v :: v in vs ==> v.loc in tables
    ensures Fits(r, |m|)
    ensures forall w: nat :: Hits(r, w) ==> Similar(tables, w, r.page[w - Dest(r.entry)], m[w])
    ensures exists v :: v in vs && Flagged(m[v.loc], mode) && Dest(r.entry) == Start(m, v) && |r.page| == Size(v)
  {
    var k := |vs| - 1;
    assert vs[k] in vs && forall v :: v in vs[..k] ==> v in vs;
    var done := ScanVisits(m, vs[..k], mode);
    if r in done.1 {
      RecordFaithful(m, vs[..k], mode, tables, r);
    } else {
      var v := vs[k];
      assert Shape(At(done.0, v.loc)) == Shape(At(m, v.loc));
      FlaggedBefore(m, vs[..k], mode, v.loc);
      var n := ClearLeaf(done.0, v, mode);
      assert r == LeafRecord(n, v);
      forall w: nat | Hits(r, w) ensures Similar(tables, w, r.page[w - Dest(r.entry)], m[w]) {
        assert r.page[w - Dest(r.entry)] == n[w];
        assert Shape(At(done.0, w)) == Shape(At(m, w));
        if w !in tables {
          ScanTouches(m, vs[..k], mode, w);
        }
      }
    }
  }

  /** A scan sets no flag. */
  lemma {:induction false} FlaggedBefore(m: Memory, vs: seq<Visit>, mode: Mode, loc: nat)
    requires PagesFit(m, vs)
    ensures Flagged(At(ScanVisits(m, vs, mode).0, loc), mode) ==> Flagged(At(m, loc), mode)
  {
    if vs != [] {
      var k := |vs| - 1;
      assert vs[k] in vs && forall v :: v in vs[..k] ==> v in vs;
      FlaggedBefore(m, vs[..k], mode, loc);
    }
  }

  /** A clearing scan leaves no leaf flagged. */
  lemma {:induction false} AllCleared(m: Memory, vs: seq<Visit>, mode: Mode, v: Visit)
    requires PagesFit(m, vs) && v in vs && mode.clear
    ensures !Flagged(At(ScanVisits(m, vs, mode).0, v.loc), mode)
  {
    var k := |vs| - 1;
    assert vs[k] in vs && forall u :: u in vs[..k] ==> u in vs;
    if v in vs[..k] {
      AllCleared(m, vs[..k], mode, v);
    } else {
      assert v == vs[k];
    }
  }

  lemma {:induction false} FirstUse(vs: seq<Visit>, loc: nat) returns (j: nat)
    requires exists v :: v in vs && v.loc == loc
    ensures j < |vs| && vs[j].loc == loc && forall k :: 0 <= k < j ==> vs[k].loc != loc
  {
    if vs[0].loc == loc {
      j := 0;
    } else {
      var v :| v in vs && v.loc == loc;
      assert v in vs[1..];
      var i := FirstUse(vs[1..], loc);
      j := i + 1;
      assert forall k :: 1 <= k < j ==> vs[k] == vs[1..][k - 1];
    }
  }

  /** The first use of a flagged word emits a record for its page. */
  lemma FirstUseEmits(m: Memory, vs: seq<Visit>, mode: Mode, j: nat) returns (r: Record)
    requires GoodLeaves(m, vs) && j < |vs| && Flagged(At(m, vs[j].loc), mode)
    requires forall k :: 0 <= k < j ==> vs[k].loc != vs[j].loc
    ensures r in ScanVisits(m, vs, mode).1
    ensures Dest(r.entry) == Start(m, vs[j]) && |r.page| == Size(vs[j])
  {
    var u := vs[j];
    assert u in vs && u in [u];
    SubFits(m, vs, j);
    ScanTouches(m, vs[..j], mode, u.loc);
    ScanSnoc(m, vs[..j], u, mode);
    assert vs[..j] + [u] == vs[..j + 1];
    ScanExtends(m, vs, mode, j + 1);
    var done := ScanVisits(m, vs[..j], mode);
    assert Shape(At(done.0, u.loc)) == Shape(At(m, u.loc));
    hide ScanVisits;
    r := FlaggedVisit(done.0, u, mode);
    assert r in done.1 + [r];
  }

  /** A visit of a flagged leaf emits a record for its page. */
  lemma FlaggedVisit(m: Memory, v: Visit, mode: Mode) returns (r: Record)
    requires PagesFit(m, [v]) && Flagged(At(m, v.loc), mode) && (v.big ==> At(m, v.loc).pse)
    ensures VisitOne(m, v, mode).1 == [r]
    ensures Dest(r.entry) == Start(m, v) && |r.page| == Size(v)
  {
    assert v in [v];
    r := LeafRecord(ClearLeaf(m, v, mode), v);
  }

  /** The leaves a scan saves: those that carry the selected bit, and of an entry that
      it clears only the first visit. */
  function Chosen(m: Memory, vs: seq<Visit>, full: bool, n: nat): seq<Visit> {
    if vs == [] then []
    else
      var k := |vs| - 1;
      Chosen(m, vs[..k], full, n) + if Chooses(m, vs[..k], vs[k], full, n) then [vs[k]] else []
  }

  predicate Chooses(m: Memory, before: seq<Visit>, v: Visit, full: bool, n: nat) {
    var e := At(m, v.loc);
    (if full || n == 0 then e.accessed else e.dirty) && (full || !Visited(before, v.loc))
  }

  ghost predicate Matches(m: Memory, rs: seq<Record>, ch: seq<Visit>) {
    |rs| == |ch| && forall i :: 0 <= i < |rs| ==> PageOf(m, rs[i], ch[i])
  }

  predicate PageOf(m: Memory, r: Record, v: Visit) {
    Dest(r.entry) == Start(m, v) && |r.page| == Size(v)
  }

  /** The scan writes one record for each chosen leaf, in order, of that leaf's page. */
  lemma {:induction false} ScanRecords(m: Memory, vs: seq<Visit>, full: bool, n: nat)
    requires GoodLeaves(m, vs)
    ensures Matches(m, ScanVisits(m, vs, ModeOf(full, n)).1, Chosen(m, vs, full, n))
  {
    if vs != [] {
      var k := |vs| - 1;
      SubFits(m, vs, k);
      assert GoodLeaves(m, vs[..k]) by { assert forall u :: u in vs[..k] ==> u in vs; }
      ScanRecords(m, vs[..k], full, n);
      RecordSnoc(m, vs, full, n);
    }
  }

  lemma RecordSnoc(m: Memory, vs: seq<Visit>, full: bool, n: nat)
    requires GoodLeaves(m, vs) && vs != [] && PagesFit(m, vs[..|vs| - 1])
    requires Matches(m, ScanVisits(m, vs[..|vs| - 1], ModeOf(full, n)).1, Chosen(m, vs[..|vs| - 1], full, n))
    ensures Matches(m, ScanVisits(m, vs, ModeOf(full, n)).1, Chosen(m, vs, full, n))
  {
    var k, mode := |vs| - 1, ModeOf(full, n);
    var v, done := vs[k], ScanVisits(m, vs[..k], mode);
    assert v in vs && v in [v];
    ScanMemory(m, vs[..k], full, n, v.loc);
    assert Flagged(At(done.0, v.loc), mode) <==> Chooses(m, vs[..k], v, full, n);
    assert At(done.0, v.loc).frame == At(m, v.loc).frame && (v.big ==> At(done.0, v.loc).pse);
    ScanSnoc(m, vs[..k], v, mode);
    assert vs[..k] + [v] == vs;
    hide *;
    VisitRecords(m, done.0, v, mode);
    ChosenSnoc(m, vs, full, n);
    MatchesSnoc(m, done.1, Chosen(m, vs[..k], full, n), VisitOne(done.0, v, mode).1, v);
  }

  lemma VisitRecords(m: Memory, d: Memory, v: Visit, mode: Mode)
    requires PagesFit(d, [v]) && At(d, v.loc).frame == At(m, v.loc).frame && (v.big ==> At(d, v.loc).pse)
    ensures var rs := VisitOne(d, v, mode).1;
            if Flagged(At(d, v.loc), mode) then |rs| == 1 && PageOf(m, rs[0], v) else rs == []
  {
    assert v in [v];
    if Flagged(At(d, v.loc), mode) {
      var r := FlaggedVisit(d, v, mode);
    }
  }

  lemma ChosenSnoc(m: Memory, vs: seq<Visit>, full: bool, n: nat)
    requires vs != []
    ensures var k := |vs| - 1;
            Chosen(m, vs, full, n)
            == Chosen(m, vs[..k], full, n) + if Chooses(m, vs[..k], vs[k], full, n) then [vs[k]] else []
  {}

  lemma MatchesSnoc(m: Memory, rs: seq<Record>, ch: seq<Visit>, more: seq<Record>, v: Visit)
    requires Matches(m, rs, ch)
    ensures more == [] ==> Matches(m, rs + more, ch + [])
    ensures |more| == 1 && PageOf(m, more[0], v) ==> Matches(m, rs + more, ch + [v])
  {}

  /** Every word below a flagged leaf is saved. */
  lemma ScanComplete(m: Memory, vs: seq<Visit>, mode: Mode, v: Visit, w: nat)
    requires GoodLeaves(m, vs) && WidestFirst(vs)
    requires v in vs && Flagged(At(m, v.loc), mode) && Covers(m, v, w)
    ensures exists r :: r in ScanVisits(m, vs, mode).1 && Hits(r, w)
  {
    hide ScanVisits;
    var j := FirstUse(vs, v.loc);
    var i :| 0 <= i < |vs| && vs[i] == v;
    assert j <= i && (v.big ==> vs[j].big);
    var r := FirstUseEmits(m, vs, mode, j);
    assert Hits(r, w);
  }

  // ------------------------------------------------------------ images

  function Zero(size: nat): Memory {
    seq(size, i => ABSENT)
  }

  /** Word `w` lies below a leaf whose flag the next scan will find. */
  ghost predicate Pending(m: Memory, vs: seq<Visit>, mode: Mode, w: nat) {
    exists v :: v in vs && Covers(m, v, w) && Flagged(At(m, v.loc), mode)
  }

  /** Loading the records of a frozen scan over `base` gives the scanned memory
      wherever base was up to date or a leaf was flagged. */
  lemma DumpedWord(m: Memory, base: Memory, vs: seq<Visit>, mode: Mode, tables: set<nat>, w: nat)
    requires GoodLeaves(m, vs) && WidestFirst(vs) && |base| == |m| && w < |m|
    requires mode.clear ==> forall v :: v in vs ==> v.loc in tables
    requires Similar(tables, w, base[w], m[w]) || Pending(m, vs, mode, w)
    ensures AllFit(ScanVisits(m, vs, mode).1, |m|)
    ensures Similar(tables, w, Load(base, ScanVisits(m, vs, mode).1)[w], m[w])
  {
    var rs := ScanVisits(m, vs, mode).1;
    DumpFits(m, vs, mode, tables);
    forall r | r in rs && Hits(r, w) ensures Similar(tables, w, r.page[w - Dest(r.entry)], m[w]) {
      RecordFaithful(m, vs, mode, tables, r);
    }
    if Pending(m, vs, mode, w) {
      var v :| v in vs && Covers(m, v, w) && Flagged(At(m, v.loc), mode);
      ScanComplete(m, vs, mode, v, w);
    }
    LoadedWord(base, rs, w, tables, m[w]);
  }

  lemma DumpFits(m: Memory, vs: seq<Visit>, mode: Mode, tables: set<nat>)
    requires GoodLeaves(m, vs)
    requires mode.clear ==> forall v :: v in vs ==> v.loc in tables
    ensures AllFit(ScanVisits(m, vs, mode).1, |m|)
  {
    forall r | r in ScanVisits(m, vs, mode).1 ensures Fits(r, |m|) {
      RecordFaithful(m, vs, mode, tables, r);
    }
  }
}
