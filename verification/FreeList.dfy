/** determine_mem_mappings and check_for_io_gap (uhyve-x86_64.c:488-515,
    759-805): the guest's free list inverted into allocated chunks, without the
    32-bit I/O gap. */
module FreeList {
  const GAP_START: nat := 0xD000_0000
  const GAP_SIZE: nat := 0x3000_0000
  const GAP_END: nat := 0x1_0000_0000
  const FIRST: nat := 0x80_0000

  datatype Region = Region(start: nat, end: nat)
  datatype Chunk = Chunk(ptr: nat, size: nat)

  /** A list node in guest memory; `next` is already translated, 0 ends the list. */
  datatype Node = Node(start: nat, end: nat, next: nat)

  /** Following `next` from address `a` visits the regions `rs` and ends. */
  ghost predicate IsList(nodes: map<nat, Node>, a: nat, rs: seq<Region>)
    decreases |rs|
  {
    if a == 0 then rs == []
    else
      a in nodes && rs != [] && rs[0] == Region(nodes[a].start, nodes[a].end) && IsList(nodes, nodes[a].next, rs[1..])
  }

  /** Sorted, disjoint, nonempty free regions between the kernel and the end of
      memory that stay out of the I/O gap, which the end of memory does not cut. */
  ghost predicate Sane(rs: seq<Region>, guestSize: nat) {
    && rs != [] && FIRST <= rs[0].start && rs[|rs| - 1].end <= guestSize
    && (guestSize < GAP_START || guestSize >= GAP_END)
    && (forall i :: 0 <= i < |rs| ==> rs[i].start < rs[i].end && (rs[i].end <= GAP_START || rs[i].start >= GAP_END))
    && (forall i :: 0 <= i < |rs| - 1 ==> rs[i].end <= rs[i + 1].start)
  }

  // ------------------------------------------------------------ the specification

  /** The stretches between free regions, in order. */
  function Between(rs: seq<Region>, i: nat): Region
    requires i < |rs|
  {
    Region(if i == 0 then FIRST else rs[i - 1].end, rs[i].start)
  }

  function Stretches(rs: seq<Region>, n: nat): (s: seq<Region>)
    requires n <= |rs|
    ensures |s| == n && forall i :: 0 <= i < n ==> s[i] == Between(rs, i)
  {
    seq(n, i requires 0 <= i < n => Between(rs, i))
  }

  function Trailing(rs: seq<Region>, guestSize: nat): seq<Region>
    requires rs != []
  {
    var end := rs[|rs| - 1].end;
    if guestSize != end then [Region(end, guestSize)] else []
  }

  /** One stretch as chunks, the gap removed. */
  function Cut(r: Region): seq<Chunk>
    requires Cuttable(r)
  {
    if r.start == GAP_START && r.end == GAP_END then []
    else if r.end == GAP_END then [Chunk(r.start, r.end - r.start - GAP_SIZE)]
    else if r.start == GAP_START then [Chunk(r.start + GAP_SIZE, r.end - r.start - GAP_SIZE)]
    else if r.start < GAP_START && r.end > GAP_END then
      [Chunk(r.start, GAP_START - r.start), Chunk(GAP_END, r.end - GAP_END)]
    else [Chunk(r.start, r.end - r.start)]
  }

  /** The gap lies inside the stretch, or the stretch avoids it. */
  predicate Cuttable(r: Region) {
    && r.start <= r.end
    && (r.start <= GAP_START || r.start > GAP_END)
    && (r.end < GAP_START || r.end >= GAP_END)
  }

  ghost predicate AllCuttable(s: seq<Region>) {
    forall i :: 0 <= i < |s| ==> Cuttable(s[i])
  }

  function CutAll(s: seq<Region>): seq<Chunk>
    requires forall i :: 0 <= i < |s| ==> Cuttable(s[i])
  {
    if s == [] then [] else CutAll(s[..|s| - 1]) + Cut(s[|s| - 1])
  }

  // ------------------------------------------------------------ the code

  class MemMappings {
    var chunks: array<Chunk>
    var count: int

    constructor ()
      ensures fresh(chunks) && count == 0
    {
      chunks := new Chunk[0](_ => Chunk(0, 0));
      count := 0;
    }

    /** check_for_io_gap on the chunk at `slot`: it is removed, shrunk, moved or
        split; the new slot index and the count follow. */
    method CheckForIoGap(slot: nat) returns (next: int)
      requires slot < chunks.Length
      requires Cuttable(Region(chunks[slot].ptr, chunks[slot].ptr + chunks[slot].size))
      requires slot + |Cut(Region(chunks[slot].ptr, chunks[slot].ptr + chunks[slot].size))| <= chunks.Length
      modifies chunks, this`count
      ensures var cut := Cut(Region(old(chunks[slot].ptr), old(chunks[slot].ptr + chunks[slot].size)));
              && next == slot + |cut| - 1
              && count == old(count) + |cut| - 1
              && chunks[..next + 1] == old(chunks[..slot]) + cut
    {
      var curStart := chunks[slot].ptr;
      var curEnd := chunks[slot].ptr + chunks[slot].size;
      next := slot;
      if curStart == GAP_START && curEnd == GAP_END {
        next := next - 1;
        count := count - 1;
      } else if curEnd == GAP_END {
        chunks[slot] := chunks[slot].(size := chunks[slot].size - GAP_SIZE);
      } else if curStart == GAP_START {
        chunks[slot] := chunks[slot].(size := chunks[slot].size - GAP_SIZE);
        chunks[slot] := chunks[slot].(ptr := chunks[slot].ptr + GAP_SIZE);
      } else if curStart < GAP_START && curEnd > GAP_END {
        chunks[slot] := chunks[slot].(size := GAP_START - curStart);
        next := next + 1;
        chunks[slot + 1] := Chunk(GAP_END, curEnd - GAP_END);
        count := count + 1;
      }
    }

    /** Writes one stretch at the next free slot and checks it for the gap. */
    method Append(next: nat, r: Region, ghost done: seq<Region>) returns (after: nat)
      requires AllCuttable(done) && Cuttable(r)
      requires next < chunks.Length && next + |Cut(r)| <= chunks.Length
      requires chunks[..next] == CutAll(done)
      modifies chunks, this`count
      ensures after == next + |Cut(r)| && AllCuttable(done + [r])
      ensures chunks[..after] == CutAll(done + [r])
      ensures count == old(count) + |Cut(r)| - 1
    {
      chunks[next] := Chunk(r.start, r.end - r.start);
      assert chunks[..next] == CutAll(done);
      var slot := CheckForIoGap(next);
      after := slot + 1;
      assert (done + [r])[..|done|] == done;
    }

    /** `nodes` and `head` are the list as the guest passed it. The chunks cover
        all stretches between free regions and the stretch behind the last one;
        the last chunk of that trailing stretch is not counted. */
    method DetermineMemMappings(nodes: map<nat, Node>, head: nat, guestSize: nat, ghost rs: seq<Region>)
      returns (used: nat)
      requires head != 0 && IsList(nodes, head, rs) && Sane(rs, guestSize)
      modifies this
      ensures fresh(chunks) && chunks.Length == |rs| + 2 && used <= chunks.Length
      ensures AllCuttable(Parts(rs, guestSize))
      ensures chunks[..used] == CutAll(Parts(rs, guestSize))
      ensures count == if guestSize == rs[|rs| - 1].end then used else used - 1
    {
      hide CutAll, Cut, Cuttable, Sane;
      var length := ListLength(nodes, head, rs);
      chunks := new Chunk[length + 2](_ => Chunk(0, 0));
      count := length;
      AllStretchesCuttable(rs, guestSize);
      CutSize(rs, guestSize, 0);
      assert Stretches(rs, 0) == [];
      SlotFits(rs, guestSize, 0);
      used := Append(0, Region(FIRST, nodes[head].start), Stretches(rs, 0));
      assert Stretches(rs, 0) + [Between(rs, 0)] == Stretches(rs, 1);
      var cur := head;
      var next := nodes[cur].next;
      ghost var i := 0;
      ghost var mine := chunks;
      while next != 0
        invariant i < |rs| && chunks == mine && fresh(chunks) && chunks.Length == |rs| + 2
        invariant cur != 0 && IsList(nodes, cur, rs[i..]) && next == nodes[cur].next
        invariant used <= chunks.Length && chunks[..used] == CutAll(Stretches(rs, i + 1))
        invariant count == |rs| - (i + 1) + used
        decreases |rs| - i
      {
        assert rs[i..][1..] == rs[i + 1..];
        SlotFits(rs, guestSize, i + 1);
        used := Append(used, Region(nodes[cur].end, nodes[next].start), Stretches(rs, i + 1));
        assert Stretches(rs, i + 1) + [Between(rs, i + 1)] == Stretches(rs, i + 2);
        cur := next;
        next := nodes[cur].next;
        i := i + 1;
      }
      assert rs[i..][1..] == [] && i == |rs| - 1;
      if guestSize != nodes[cur].end {
        SlotFits(rs, guestSize, |rs|);
        used := Append(used, Region(nodes[cur].end, guestSize), Stretches(rs, |rs|));
      } else {
        assert Stretches(rs, |rs|) + [] == Stretches(rs, |rs|);
      }
    }
  }

  /** The first loop of determine_mem_mappings. */
  method ListLength(nodes: map<nat, Node>, head: nat, ghost rs: seq<Region>) returns (n: nat)
    requires IsList(nodes, head, rs)
    ensures n == |rs|
  {
    n := 0;
    var cur := head;
    while cur != 0
      invariant n <= |rs| && IsList(nodes, cur, rs[n..])
      decreases |rs| - n
    {
      assert rs[n..][1..] == rs[n + 1..];
      cur := nodes[cur].next;
      n := n + 1;
    }
  }

  // ------------------------------------------------------------ bounds

  /** Stretch number i, the trailing one being number |rs|. */
  function Stretch(rs: seq<Region>, guestSize: nat, i: nat): Region
    requires rs != [] && i <= |rs|
  {
    if i < |rs| then Between(rs, i) else Region(rs[|rs| - 1].end, guestSize)
  }

  lemma StretchCuttable(rs: seq<Region>, guestSize: nat, i: nat)
    requires Sane(rs, guestSize) && i <= |rs|
    ensures Cuttable(Stretch(rs, guestSize, i))
    ensures i < |rs| ==> Stretch(rs, guestSize, i).end < Stretch(rs, guestSize, i + 1).start
    ensures i == |rs| ==> Stretch(rs, guestSize, i).end == guestSize
  {
    if 0 < i < |rs| {
      assert rs[i - 1].end <= rs[i - 1 + 1].start;
    }
  }

  lemma AllStretchesCuttable(rs: seq<Region>, guestSize: nat)
    requires Sane(rs, guestSize)
    ensures forall n :: 0 <= n <= |rs| ==> AllCuttable(Stretches(rs, n))
    ensures AllCuttable(Stretches(rs, |rs|) + Trailing(rs, guestSize))
  {
    forall i | 0 <= i <= |rs| ensures Cuttable(Stretch(rs, guestSize, i)) {
      StretchCuttable(rs, guestSize, i);
    }
    forall i | 0 <= i < |rs| ensures Cuttable(Between(rs, i)) {
      assert Stretch(rs, guestSize, i) == Between(rs, i);
    }
    assert Stretch(rs, guestSize, |rs|) == Region(rs[|rs| - 1].end, guestSize);
  }

  /** The first i stretches need at most i slots, one more once the gap is behind. */
  lemma {:induction false} CutSize(rs: seq<Region>, guestSize: nat, i: nat)
    requires Sane(rs, guestSize) && i <= |rs|
    ensures AllCuttable(Stretches(rs, i))
    ensures |CutAll(Stretches(rs, i))| <= i + if i > 0 && rs[i - 1].start > GAP_END then 1 else 0
  {
    AllStretchesCuttable(rs, guestSize);
    if i > 0 {
      CutSize(rs, guestSize, i - 1);
      StretchCuttable(rs, guestSize, i - 1);
      assert Stretches(rs, i)[..i - 1] == Stretches(rs, i - 1);
      assert Stretches(rs, i)[i - 1] == Between(rs, i - 1);
      if i > 1 {
        StretchCuttable(rs, guestSize, i - 2);
      }
    }
  }

  /** Every slot index stays below list length + 2. */
  lemma SlotFits(rs: seq<Region>, guestSize: nat, i: nat)
    requires Sane(rs, guestSize) && i <= |rs|
    ensures AllCuttable(Stretches(rs, i)) && Cuttable(Stretch(rs, guestSize, i))
    ensures |CutAll(Stretches(rs, i))| < |rs| + 2
    ensures |CutAll(Stretches(rs, i))| + |Cut(Stretch(rs, guestSize, i))| <= |rs| + 2
  {
    AllStretchesCuttable(rs, guestSize);
    CutSize(rs, guestSize, i);
    StretchCuttable(rs, guestSize, i);
    if i > 0 {
      StretchCuttable(rs, guestSize, i - 1);
    }
  }

  // ------------------------------------------------------------ the partition

  ghost predicate InChunks(cs: seq<Chunk>, x: nat) {
    exists i :: 0 <= i < |cs| && cs[i].ptr <= x < cs[i].ptr + cs[i].size
  }

  predicate InGap(x: nat) {
    GAP_START <= x < GAP_END
  }

  ghost predicate InRegions(rs: seq<Region>, x: nat) {
    exists i :: 0 <= i < |rs| && rs[i].start <= x < rs[i].end
  }

  lemma InChunksConcat(a: seq<Chunk>, b: seq<Chunk>, x: nat)
    ensures InChunks(a + b, x) <==> InChunks(a, x) || InChunks(b, x)
  {
    if InChunks(b, x) {
      var i :| 0 <= i < |b| && b[i].ptr <= x < b[i].ptr + b[i].size;
      assert (a + b)[|a| + i] == b[i];
    }
    if InChunks(a, x) {
      var i :| 0 <= i < |a| && a[i].ptr <= x < a[i].ptr + a[i].size;
      assert (a + b)[i] == a[i];
    }
  }

  lemma InCut(r: Region, x: nat)
    requires Cuttable(r)
    ensures InChunks(Cut(r), x) <==> r.start <= x < r.end && !InGap(x)
  {
    var c := Cut(r);
    if c != [] {
      assert c[0].ptr <= x < c[0].ptr + c[0].size ==> InChunks(c, x);
    }
    if |c| == 2 {
      assert c[1].ptr <= x < c[1].ptr + c[1].size ==> InChunks(c, x);
    }
  }

  lemma InRegionsSnoc(s: seq<Region>, x: nat)
    requires s != []
    ensures InRegions(s, x) <==> InRegions(s[..|s| - 1], x) || s[|s| - 1].start <= x < s[|s| - 1].end
  {
    var k := |s| - 1;
    if InRegions(s[..k], x) {
      var i :| 0 <= i < k && s[..k][i].start <= x < s[..k][i].end;
      assert s[i] == s[..k][i];
    }
    if InRegions(s, x) {
      var i :| 0 <= i < |s| && s[i].start <= x < s[i].end;
      assert i < k ==> s[..k][i] == s[i];
    }
  }

  lemma {:induction false} InCutAll(s: seq<Region>, x: nat)
    requires AllCuttable(s)
    ensures InChunks(CutAll(s), x) <==> InRegions(s, x) && !InGap(x)
  {
    if s != [] {
      var k := |s| - 1;
      InCutAll(s[..k], x);
      InCut(s[k], x);
      InChunksConcat(CutAll(s[..k]), Cut(s[k]), x);
      InRegionsSnoc(s, x);
    }
  }

  lemma {:induction false} Ordered(rs: seq<Region>, guestSize: nat, i: nat, j: nat)
    requires Sane(rs, guestSize) && i <= j < |rs|
    ensures rs[i].start <= rs[j].start && rs[i].end <= rs[j].end
    decreases j - i
  {
    if i < j {
      Ordered(rs, guestSize, i, j - 1);
      assert rs[j - 1].end <= rs[j - 1 + 1].start;
    }
  }

  /** Regions 0..n end before region n - 1 does. */
  lemma Below(rs: seq<Region>, guestSize: nat, n: nat, x: nat)
    requires Sane(rs, guestSize) && 0 < n <= |rs|
    ensures InRegions(rs[..n], x) ==> FIRST <= x < rs[n - 1].end
  {
    if InRegions(rs[..n], x) {
      var i :| 0 <= i < n && rs[..n][i].start <= x < rs[..n][i].end;
      assert rs[..n][i] == rs[i];
      Ordered(rs, guestSize, i, n - 1);
      Ordered(rs, guestSize, 0, i);
    }
  }

  /** The first n stretches are what regions 0..n leave free below region n - 1. */
  lemma {:induction false} StretchesComplement(rs: seq<Region>, guestSize: nat, n: nat, x: nat)
    requires Sane(rs, guestSize) && 0 < n <= |rs|
    ensures InRegions(Stretches(rs, n), x) <==> FIRST <= x < rs[n - 1].start && !InRegions(rs[..n], x)
  {
    var k := n - 1;
    var s := Stretches(rs, n);
    assert s[..k] == Stretches(rs, k) && s[k] == Between(rs, k);
    assert rs[..n][..k] == rs[..k] && rs[..n][k] == rs[k];
    InRegionsSnoc(s, x);
    InRegionsSnoc(rs[..n], x);
    if k > 0 {
      StretchesComplement(rs, guestSize, k, x);
      Ordered(rs, guestSize, 0, k - 1);
      assert rs[k - 1].end <= rs[k - 1 + 1].start;
      InRegionsSnoc(rs[..k], x);
      assert rs[..k][k - 1] == rs[k - 1];
      Below(rs, guestSize, k, x);
    }
  }

  ghost predicate Wanted(rs: seq<Region>, guestSize: nat, x: nat) {
    FIRST <= x < guestSize && !InRegions(rs, x) && !InGap(x)
  }

  function Parts(rs: seq<Region>, guestSize: nat): seq<Region>
    requires rs != []
  {
    Stretches(rs, |rs|) + Trailing(rs, guestSize)
  }

  /** The written chunks cover exactly the memory from the kernel to the end
      that is neither free nor in the I/O gap. */
  lemma ChunksCover(rs: seq<Region>, guestSize: nat, x: nat)
    requires Sane(rs, guestSize)
    ensures AllCuttable(Parts(rs, guestSize))
    ensures InChunks(CutAll(Parts(rs, guestSize)), x) <==> Wanted(rs, guestSize, x)
  {
    AllStretchesCuttable(rs, guestSize);
    var all, s, last := Parts(rs, guestSize), Stretches(rs, |rs|), rs[|rs| - 1];
    InCutAll(all, x);
    StretchesComplement(rs, guestSize, |rs|, x);
    Below(rs, guestSize, |rs|, x);
    Ordered(rs, guestSize, 0, |rs| - 1);
    assert rs[..|rs|] == rs;
    InRegionsSnoc(rs, x);
    if guestSize == last.end {
      assert all == s;
    } else {
      assert all[..|all| - 1] == s;
      InRegionsSnoc(all, x);
    }
  }

  ghost predicate Sorted(cs: seq<Chunk>) {
    forall i, j :: 0 <= i < j < |cs| ==> cs[i].ptr + cs[i].size <= cs[j].ptr
  }

  lemma CutWithin(r: Region)
    requires Cuttable(r)
    ensures Sorted(Cut(r))
    ensures forall i :: 0 <= i < |Cut(r)| ==> r.start <= Cut(r)[i].ptr && Cut(r)[i].ptr + Cut(r)[i].size <= r.end
  {
  }

  lemma {:induction false} CutsSorted(s: seq<Region>, end: nat)
    requires AllCuttable(s)
    requires forall i :: 0 <= i < |s| - 1 ==> s[i].end <= s[i + 1].start
    requires s != [] ==> s[|s| - 1].end <= end
    ensures Sorted(CutAll(s))
    ensures forall i :: 0 <= i < |CutAll(s)| ==> CutAll(s)[i].ptr + CutAll(s)[i].size <= end
  {
    if s != [] {
      var k := |s| - 1;
      assert k > 0 ==> s[k - 1].end <= s[k - 1 + 1].start;
      CutsSorted(s[..k], s[k].start);
      CutWithin(s[k]);
      var a, b := CutAll(s[..k]), Cut(s[k]);
      assert forall j :: |a| <= j < |a + b| ==> (a + b)[j] == b[j - |a|];
    }
  }

  /** The written chunks are disjoint and in ascending order. */
  lemma ChunksDisjoint(rs: seq<Region>, guestSize: nat)
    requires Sane(rs, guestSize)
    ensures AllCuttable(Parts(rs, guestSize)) && Sorted(CutAll(Parts(rs, guestSize)))
  {
    AllStretchesCuttable(rs, guestSize);
    var all := Parts(rs, guestSize);
    forall i | 0 <= i < |all| - 1 ensures all[i].end <= all[i + 1].start {
      StretchCuttable(rs, guestSize, i);
      assert all[i] == Stretch(rs, guestSize, i) && all[i + 1] == Stretch(rs, guestSize, i + 1);
    }
    CutsSorted(all, all[|all| - 1].end);
  }

  /** Adjacent free regions are merged and the kernel is followed by data. */
  ghost predicate Coalesced(rs: seq<Region>) {
    && rs != [] && FIRST < rs[0].start
    && forall i :: 0 <= i < |rs| - 1 ==> rs[i].end < rs[i + 1].start
  }

  lemma {:induction false} CutsNonempty(s: seq<Region>)
    requires AllCuttable(s) && forall i :: 0 <= i < |s| ==> s[i].start < s[i].end
    ensures forall i :: 0 <= i < |CutAll(s)| ==> CutAll(s)[i].size > 0
  {
    if s != [] {
      CutsNonempty(s[..|s| - 1]);
    }
  }

  /** The chunks mem_mappings.count announces. */
  function Counted(rs: seq<Region>, guestSize: nat): seq<Chunk>
    requires rs != [] && forall i :: 0 <= i < |Parts(rs, guestSize)| ==> Cuttable(Parts(rs, guestSize)[i])
  {
    var cs := CutAll(Parts(rs, guestSize));
    if guestSize == rs[|rs| - 1].end || cs == [] then cs else cs[..|cs| - 1]
  }

  /** The counted chunks cover all allocated memory exactly when the last free region
      ends at the end of memory, or the chunk that is written but not counted is empty;
      in a merged free list it never is. */
  lemma CountedIffLastEnds(rs: seq<Region>, guestSize: nat)
    requires Sane(rs, guestSize)
    ensures AllCuttable(Parts(rs, guestSize)) && CutAll(Parts(rs, guestSize)) != []
    ensures var cs := CutAll(Parts(rs, guestSize));
            (forall x :: InChunks(Counted(rs, guestSize), x) <==> Wanted(rs, guestSize, x))
            <==> guestSize == rs[|rs| - 1].end || cs[|cs| - 1].size == 0
    ensures Coalesced(rs) ==> var cs := CutAll(Parts(rs, guestSize)); cs[|cs| - 1].size > 0
  {
    FirstChunk(rs, guestSize);
    if Coalesced(rs) { LastNonempty(rs, guestSize); }
    var cs := CutAll(Parts(rs, guestSize));
    ChunksDisjoint(rs, guestSize);
    if guestSize == rs[|rs| - 1].end {
      forall x ensures InChunks(Counted(rs, guestSize), x) <==> Wanted(rs, guestSize, x) {
        ChunksCover(rs, guestSize, x);
      }
    } else if cs[|cs| - 1].size == 0 {
      forall x ensures InChunks(Counted(rs, guestSize), x) <==> Wanted(rs, guestSize, x) {
        ChunksCover(rs, guestSize, x);
        EmptyLast(cs, x);
      }
    } else {
      var x := cs[|cs| - 1].ptr;
      assert InChunks(cs, x);
      ChunksCover(rs, guestSize, x);
      assert !InChunks(Counted(rs, guestSize), x);
    }
  }

  lemma EmptyLast(cs: seq<Chunk>, x: nat)
    requires cs != [] && cs[|cs| - 1].size == 0
    ensures InChunks(cs, x) <==> InChunks(cs[..|cs| - 1], x)
  {
    assert cs == cs[..|cs| - 1] + [cs[|cs| - 1]];
    InChunksConcat(cs[..|cs| - 1], [cs[|cs| - 1]], x);
  }

  lemma LastNonempty(rs: seq<Region>, guestSize: nat)
    requires Sane(rs, guestSize) && Coalesced(rs)
    ensures AllCuttable(Parts(rs, guestSize))
    ensures forall i :: 0 <= i < |CutAll(Parts(rs, guestSize))| ==> CutAll(Parts(rs, guestSize))[i].size > 0
  {
    AllStretchesCuttable(rs, guestSize);
    var all := Parts(rs, guestSize);
    forall i | 0 <= i < |all| ensures all[i].start < all[i].end {
      assert all[i] == Stretch(rs, guestSize, i);
      if 0 < i < |rs| { assert rs[i - 1].end < rs[i - 1 + 1].start; }
    }
    CutsNonempty(all);
  }

  /** The stretch behind the kernel's start always leaves a chunk. */
  lemma FirstChunk(rs: seq<Region>, guestSize: nat)
    requires Sane(rs, guestSize)
    ensures AllCuttable(Parts(rs, guestSize)) && CutAll(Parts(rs, guestSize)) != []
  {
    AllStretchesCuttable(rs, guestSize);
    var all := Parts(rs, guestSize);
    assert all[0] == Between(rs, 0);
    CutsFirst(all);
  }

  lemma {:induction false} CutsFirst(s: seq<Region>)
    requires AllCuttable(s) && s != [] && Cut(s[0]) != []
    ensures CutAll(s) != []
  {
    if |s| > 1 { CutsFirst(s[..|s| - 1]); }
  }
}
