/** The leaves a scan visits, path by path: the four nested loops of scan_page_tables
    (uhyve-x86_64.c:709-741) written out as four indices. */
module ScanPaths {
  import opened Bytes
  import opened Scan

  datatype Path = Path(i3: nat, i2: nat, i1: nat, i0: nat)

  datatype Found = Nothing | Leaf(visit: Visit)

  predicate IsPath(p: Path) {
    p.i3 < 512 && p.i2 < 512 && p.i1 < 512 && p.i0 < 512
  }

  /** Place of a path in the order of the loops. */
  function Number(p: Path): nat {
    ((p.i3 * 512 + p.i2) * 512 + p.i1) * 512 + p.i0
  }

  /** What the loops find at these indices. A 2 MiB page is found at its page directory
      entry; it has no fourth index, which is then written as 0. */
  function LeafAt(m: Memory, p: Path): Found {
    var e3 := At(m, 512 * 0x10 + p.i3);
    if !e3.present then Nothing
    else
      var e2 := At(m, 512 * e3.frame + p.i2);
      if !e2.present then Nothing
      else
        var e1 := At(m, 512 * e2.frame + p.i1);
        if !e1.present then Nothing
        else if e1.pse then if p.i0 == 0 then Leaf(Visit(512 * e2.frame + p.i1, true)) else Nothing
        else
          var e0 := At(m, 512 * e1.frame + p.i0);
          if e0.present then Leaf(Visit(512 * e1.frame + p.i0, false)) else Nothing
  }

  // ------------------------------------------------------------ by level

  /** How many numbers one entry of a level has. */
  function Width(level: nat): (w: nat)
    ensures w > 0
  {
    if level <= 1 then 1 else 512 * Width(level - 1)
  }

  /** The leaf with number x below a table. */
  function LeafBelow(m: Memory, level: nat, table: nat, x: nat): Found {
    var loc := 512 * table + x / Width(level);
    var e := At(m, loc);
    if level == 0 || !e.present then Nothing
    else if level == 1 then Leaf(Visit(loc, false))
    else if level == 2 && e.pse then if x % Width(level) == 0 then Leaf(Visit(loc, true)) else Nothing
    else LeafBelow(m, level - 1, e.frame, x % Width(level))
  }

  /** `ls` numbers the visits `vs` of the leaves with numbers lo..hi-1 below a table, in
      order and completely. */
  ghost predicate Numbers(m: Memory, level: nat, table: nat, lo: nat, hi: nat, vs: seq<Visit>, ls: seq<nat>) {
    |ls| == |vs| && Each(m, level, table, lo, hi, vs, ls) && Rising(ls) && Complete(m, level, table, lo, hi, ls)
  }

  ghost predicate Each(m: Memory, level: nat, table: nat, lo: nat, hi: nat, vs: seq<Visit>, ls: seq<nat>)
    requires |ls| == |vs|
  {
    forall a :: 0 <= a < |ls| ==> lo <= ls[a] < hi && LeafBelow(m, level, table, ls[a]) == Leaf(vs[a])
  }

  predicate Rising(ls: seq<nat>) {
    forall a, b :: 0 <= a < b < |ls| ==> ls[a] < ls[b]
  }

  ghost predicate Complete(m: Memory, level: nat, table: nat, lo: nat, hi: nat, ls: seq<nat>) {
    forall x :: lo <= x < hi && LeafBelow(m, level, table, x).Leaf? ==> x in ls
  }

  lemma NumbersConcat(m: Memory, level: nat, table: nat, lo: nat, mid: nat, hi: nat,
                      vs: seq<Visit>, ls: seq<nat>, ws: seq<Visit>, ks: seq<nat>)
    requires lo <= mid <= hi
    requires Numbers(m, level, table, lo, mid, vs, ls) && Numbers(m, level, table, mid, hi, ws, ks)
    ensures Numbers(m, level, table, lo, hi, vs + ws, ls + ks)
  {
    hide LeafBelow;
  }

  /** A number below entry i is a number below the table that the entry points to. */
  lemma EntryLeaf(m: Memory, level: nat, table: nat, i: nat, x: nat)
    requires level > 0 && i * Width(level) <= x < (i + 1) * Width(level)
    ensures var loc, rest := 512 * table + i, x - i * Width(level);
            var e := At(m, loc);
            LeafBelow(m, level, table, x)
            == if !e.present then Nothing
               else if level == 1 then Leaf(Visit(loc, false))
               else if level == 2 && e.pse then if rest == 0 then Leaf(Visit(loc, true)) else Nothing
               else LeafBelow(m, level - 1, e.frame, rest)
  {
    hide Width;
    Quotient(i, Width(level), x);
  }

  lemma AbsentNumbers(m: Memory, level: nat, table: nat, i: nat)
    requires level > 0 && !At(m, 512 * table + i).present
    ensures Numbers(m, level, table, i * Width(level), (i + 1) * Width(level), [], [])
  {
    hide LeafBelow, Width;
    forall x | i * Width(level) <= x < (i + 1) * Width(level) ensures LeafBelow(m, level, table, x).Nothing? {
      EntryLeaf(m, level, table, i, x);
    }
  }

  lemma LeafNumbers(m: Memory, level: nat, table: nat, i: nat)
    requires At(m, 512 * table + i).present && (level == 1 || (level == 2 && At(m, 512 * table + i).pse))
    ensures Numbers(m, level, table, i * Width(level), (i + 1) * Width(level),
                    [Visit(512 * table + i, level == 2)], [i * Width(level)])
  {
    hide LeafBelow;
    var w := Width(level);
    hide Width;
    assert i * w < (i + 1) * w == i * w + w;
    EntryLeaf(m, level, table, i, i * w);
    forall x | i * w <= x < (i + 1) * w && LeafBelow(m, level, table, x).Leaf? ensures x == i * w {
      EntryLeaf(m, level, table, i, x);
      if level == 1 { assert w == 1 by { WidthOne(); } }
    }
  }

  lemma WidthOne()
    ensures Width(1) == 1
  {}

  lemma {:induction false} EntryNumbers(m: Memory, level: nat, table: nat, i: nat) returns (ls: seq<nat>)
    requires level > 0
    ensures Numbers(m, level, table, i * Width(level), (i + 1) * Width(level),
                    EntryVisits(m, level, 512 * table + i), ls)
    decreases level, 0
  {
    hide LeafBelow, Numbers, Visits;
    var e, w := At(m, 512 * table + i), Width(level);
    if !e.present {
      ls := [];
      AbsentNumbers(m, level, table, i);
    } else if level == 1 || (level == 2 && e.pse) {
      ls := [i * w];
      LeafNumbers(m, level, table, i);
    } else {
      var ks := TableNumbers(m, level - 1, e.frame, 0);
      assert 0 * Width(level - 1) == 0;
      ls := Shifted(m, level, table, i, Visits(m, level - 1, e.frame, 0), ks);
    }
  }

  lemma Shifted(m: Memory, level: nat, table: nat, i: nat, vs: seq<Visit>, ks: seq<nat>) returns (ls: seq<nat>)
    requires level > 1 && At(m, 512 * table + i).present && !(level == 2 && At(m, 512 * table + i).pse)
    requires Numbers(m, level - 1, At(m, 512 * table + i).frame, 0, Width(level), vs, ks)
    ensures Numbers(m, level, table, i * Width(level), (i + 1) * Width(level), vs, ls)
  {
    hide LeafBelow, Width, Complete;
    var base, end := i * Width(level), (i + 1) * Width(level);
    assert end == base + Width(level);
    ls := seq(|ks|, a requires 0 <= a < |ks| => base + ks[a]);
    forall a | 0 <= a < |ls| ensures base <= ls[a] < end && LeafBelow(m, level, table, ls[a]) == Leaf(vs[a]) {
      EntryLeaf(m, level, table, i, ls[a]);
    }
    ShiftedComplete(m, level, table, i, ks, ls);
  }

  lemma ShiftedComplete(m: Memory, level: nat, table: nat, i: nat, ks: seq<nat>, ls: seq<nat>)
    requires level > 1 && At(m, 512 * table + i).present && !(level == 2 && At(m, 512 * table + i).pse)
    requires Complete(m, level - 1, At(m, 512 * table + i).frame, 0, Width(level), ks)
    requires |ls| == |ks| && forall a :: 0 <= a < |ks| ==> ls[a] == i * Width(level) + ks[a]
    ensures Complete(m, level, table, i * Width(level), (i + 1) * Width(level), ls)
  {
    hide LeafBelow, Width;
    var base, end := i * Width(level), (i + 1) * Width(level);
    assert end == base + Width(level);
    forall x | base <= x < end && LeafBelow(m, level, table, x).Leaf? ensures x in ls {
      EntryLeaf(m, level, table, i, x);
      ShiftedIn(ks, ls, base, x);
    }
  }

  lemma ShiftedIn(ks: seq<nat>, ls: seq<nat>, base: nat, x: nat)
    requires |ls| == |ks| && (forall a :: 0 <= a < |ks| ==> ls[a] == base + ks[a]) && x - base in ks
    ensures x in ls
  {
    var a :| 0 <= a < |ks| && ks[a] == x - base;
    assert ls[a] == x;
  }

  lemma {:induction false} TableNumbers(m: Memory, level: nat, table: nat, i: nat) returns (ls: seq<nat>)
    requires level > 0 && i <= 512
    ensures Numbers(m, level, table, i * Width(level), 512 * Width(level), Visits(m, level, table, i), ls)
    ensures 512 * Width(level) == Width(level + 1)
    decreases level, 513 - i
  {
    hide LeafBelow, EntryVisits, Numbers;
    if i == 512 {
      ls := [];
      NoNumbers(m, level, table, 512 * Width(level));
    } else {
      var here := EntryNumbers(m, level, table, i);
      var rest := TableNumbers(m, level, table, i + 1);
      var w := Width(level);
      assert i * w <= (i + 1) * w <= 512 * w;
      ls := here + rest;
      NumbersConcat(m, level, table, i * w, (i + 1) * w, 512 * w, EntryVisits(m, level, 512 * table + i), here,
                    Visits(m, level, table, i + 1), rest);
    }
  }

  lemma NoNumbers(m: Memory, level: nat, table: nat, lo: nat)
    ensures Numbers(m, level, table, lo, lo, [], [])
  {}

  // ---------------------------------------------------------------- theorem

  function PathOf(x: nat): Path {
    Path(x / 0x800_0000, x / 0x4_0000 % 512, x / 512 % 512, x % 512)
  }

  lemma PathOfNumber(p: Path)
    requires IsPath(p)
    ensures PathOf(Number(p)) == p && Number(p) < 0x10_0000_0000
  {
    var low, high := p.i1 * 512 + p.i0, p.i3 * 512 + p.i2;
    assert Number(p) == high * 0x4_0000 + low && low < 0x4_0000;
    assert Number(p) / 0x4_0000 == high && Number(p) % 0x4_0000 == low;
    assert Number(p) / 512 == high * 512 + p.i1 && Number(p) % 512 == p.i0;
    assert Number(p) / 0x800_0000 == p.i3;
  }

  lemma NumberOfPath(x: nat)
    requires x < 0x10_0000_0000
    ensures IsPath(PathOf(x)) && Number(PathOf(x)) == x
  {
    assert x / 0x4_0000 == x / 0x800_0000 * 512 + x / 0x4_0000 % 512;
    assert x / 512 == x / 0x4_0000 * 512 + x / 512 % 512;
  }

  lemma Widths()
    ensures Width(1) == 1 && Width(2) == 512 && Width(3) == 0x4_0000 && Width(4) == 0x800_0000
  {
    assert Width(2) == 512 * Width(1) && Width(3) == 512 * Width(2) && Width(4) == 512 * Width(3);
  }

  lemma SameLeaf(m: Memory, p: Path)
    requires IsPath(p)
    ensures LeafBelow(m, 4, PML4, Number(p)) == LeafAt(m, p)
  {
    Widths();
    hide Width, LeafBelow;
    var x0 := p.i0;
    var x1 := p.i1 * 512 + x0;
    var x2 := p.i2 * 0x4_0000 + x1;
    assert Number(p) == p.i3 * 0x800_0000 + x2;
    var e3 := At(m, 512 * 0x10 + p.i3);
    var e2 := At(m, 512 * e3.frame + p.i2);
    var e1 := At(m, 512 * e2.frame + p.i1);
    EntryLeaf(m, 4, PML4, p.i3, Number(p));
    EntryLeaf(m, 3, e3.frame, p.i2, x2);
    EntryLeaf(m, 2, e2.frame, p.i1, x1);
    EntryLeaf(m, 1, e1.frame, p.i0, x0);
  }

  /** A scan visits exactly the leaves of the paths of four indices, each path at most
      once and in the order of the loops. */
  lemma EachPathOnce(m: Memory) returns (paths: seq<Path>)
    ensures |paths| == |AllVisits(m)|
    ensures forall a :: 0 <= a < |paths| ==> IsPath(paths[a]) && LeafAt(m, paths[a]) == Leaf(AllVisits(m)[a])
    ensures forall a, b :: 0 <= a < b < |paths| ==> Number(paths[a]) < Number(paths[b])
    ensures forall p :: IsPath(p) && LeafAt(m, p).Leaf? ==> p in paths
  {
    hide LeafAt, LeafBelow, PathOf, Number, IsPath, Visits;
    Widths();
    var ls := TableNumbers(m, 4, PML4, 0);
    paths := seq(|ls|, a requires 0 <= a < |ls| => PathOf(ls[a]));
    forall a | 0 <= a < |ls|
      ensures IsPath(paths[a]) && LeafAt(m, paths[a]) == Leaf(AllVisits(m)[a]) && Number(paths[a]) == ls[a]
    {
      NumberOfPath(ls[a]);
      SameLeaf(m, paths[a]);
    }
    forall p | IsPath(p) && LeafAt(m, p).Leaf? ensures p in paths {
      PathOfNumber(p);
      SameLeaf(m, p);
      assert Number(p) in ls;
      var a :| 0 <= a < |ls| && ls[a] == Number(p);
      assert paths[a] == p;
    }
  }
}
