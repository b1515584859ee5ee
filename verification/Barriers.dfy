/** A reusable pthread barrier: a generation and a count of the threads already
    inside it. The last arrival starts the next generation and resets the count
    (pthread_barrier_wait, used in uhyve.c and uhyve-x86_64.c). */
module Barriers {

  /** `arrivals[i]` counts how often thread i has arrived. */
  datatype Barrier = Barrier(arrivals: seq<nat>, gen: nat, count: nat)

  function Arrive(b: Barrier, i: nat): Barrier
    requires i < |b.arrivals|
  {
    var next := b.arrivals[i := b.arrivals[i] + 1];
    if b.count + 1 == |b.arrivals| then Barrier(next, b.gen + 1, 0) else Barrier(next, b.gen, b.count + 1)
  }

  /** Thread i is not held by the barrier. */
  predicate Passed(b: Barrier, i: nat) {
    i < |b.arrivals| && b.arrivals[i] <= b.gen
  }

  function Inside(b: Barrier): set<nat> {
    set i: nat | i < |b.arrivals| && b.arrivals[i] == b.gen + 1
  }

  /** Nobody runs ahead of the generation, or is left behind it. */
  predicate Ok(b: Barrier) {
    b.count == |Inside(b)| < |b.arrivals|
    && forall i: nat :: i < |b.arrivals| ==> b.gen <= b.arrivals[i] <= b.gen + 1
  }

  function New(n: nat): Barrier {
    Barrier(seq(n, i => 0), 0, 0)
  }

  lemma NewOk(n: nat)
    requires n > 0
    ensures Ok(New(n))
  {
    assert Inside(New(n)) == {};
  }

  lemma ArriveShape(b: Barrier, i: nat)
    requires i < |b.arrivals|
    ensures Arrive(b, i).arrivals == b.arrivals[i := b.arrivals[i] + 1]
    ensures b.gen <= Arrive(b, i).gen <= b.gen + 1
  {}

  /** An arrival keeps the barrier sound. */
  lemma ArriveKeeps(b: Barrier, i: nat)
    requires Ok(b) && Passed(b, i)
    ensures Ok(Arrive(b, i))
  {
    var now, t := Inside(b) + {i}, Arrive(b, i);
    if b.count + 1 == |b.arrivals| {
      forall j: nat | j < |b.arrivals| && j != i ensures b.arrivals[j] == b.gen + 1 {
        AllInside(b, i, j);
      }
      assert Inside(t) == {};
    } else {
      assert Inside(t) == now;
    }
  }

  /** The last arrival finds everybody else inside. */
  lemma AllInside(b: Barrier, i: nat, j: nat)
    requires Ok(b) && Passed(b, i) && b.count + 1 == |b.arrivals| && j < |b.arrivals| && j != i
    ensures b.arrivals[j] == b.gen + 1
  {
    var now := Inside(b) + {i};
    SubsetFull(now, Cores(|b.arrivals|));
    assert j in Cores(|b.arrivals|);
  }

  /** Somebody is always missing. */
  lemma Missing(b: Barrier) returns (j: nat)
    requires Ok(b)
    ensures j < |b.arrivals| && b.arrivals[j] == b.gen
  {
    if Cores(|b.arrivals|) <= Inside(b) {
      SubsetSize(Cores(|b.arrivals|), Inside(b));
      assert false;
    }
    j :| j in Cores(|b.arrivals|) && j !in Inside(b);
  }

  function Cores(n: nat): (r: set<nat>)
    ensures |r| == n && forall i: nat :: i in r <==> i < n
  {
    if n == 0 then {} else Cores(n - 1) + {n - 1}
  }

  lemma SubsetFull(a: set<nat>, b: set<nat>)
    requires a <= b && |a| == |b|
    ensures a == b
  {
    if x :| x in b && x !in a {
      SubsetSize(a, b - {x});
    }
  }

  lemma {:induction false} SubsetSize(a: set<nat>, b: set<nat>)
    requires a <= b
    ensures |a| <= |b|
  {
    if a != {} {
      var x :| x in a;
      SubsetSize(a - {x}, b - {x});
    }
  }

  function Sum(s: seq<nat>): nat {
    if s == [] then 0 else Sum(s[..|s| - 1]) + s[|s| - 1]
  }

  lemma {:induction false} SumUpdate(s: seq<nat>, i: nat, v: nat)
    requires i < |s|
    ensures Sum(s[i := v]) == Sum(s) - s[i] + v
  {
    var k := |s| - 1;
    if i == k {
      assert s[i := v][..k] == s[..k];
    } else {
      assert s[i := v][..k] == s[..k][i := v];
      SumUpdate(s[..k], i, v);
    }
  }

  lemma {:induction false} SumBound(s: seq<nat>, most: nat)
    requires forall i :: 0 <= i < |s| ==> s[i] <= most
    ensures Sum(s) <= |s| * most
  {
    if s != [] {
      SumBound(s[..|s| - 1], most);
      assert |s| * most == (|s| - 1) * most + most;
    }
  }
}
