/** The memory regions an RDMA migration registers, and which pages they let
    through (uhyve-x86_64.c:445-463; uhyve-migration-rdma.c:260-290, 703-735,
    880-887). Addresses are guest-physical bytes. */
module Regions {
  import opened FreeList

  /** determine_guest_physical_memory_regions. */
  function PhysChunks(guestSize: nat): seq<Chunk>
    requires guestSize < GAP_START || guestSize >= GAP_END
  {
    if guestSize < GAP_START then [Chunk(0, guestSize)]
    else [Chunk(0, GAP_START), Chunk(GAP_END, guestSize - GAP_END)]
  }

  /** Live migrations register all guest memory; cold ones only what is allocated,
      if anything is known to be. */
  function Registered(live: bool, phys: seq<Chunk>, mapped: seq<Chunk>): seq<Chunk> {
    if live || mapped == [] then phys else mapped
  }

  predicate Contains(c: Chunk, x: int) {
    c.ptr <= x < c.ptr + c.size
  }

  /** The first region that holds an address, or the number of regions. */
  function Lookup(regions: seq<Chunk>, x: nat): (i: nat)
    ensures i <= |regions|
    ensures i < |regions| ==> Contains(regions[i], x)
    ensures forall j :: 0 <= j < i ==> !Contains(regions[j], x)
  {
    if regions == [] then 0 else if Contains(regions[0], x) then 0 else 1 + Lookup(regions[1..], x)
  }

  /** A page whose first byte is in no region is never listed. */
  predicate Listed(regions: seq<Chunk>, x: nat) {
    Lookup(regions, x) < |regions|
  }

  /** The adapter refuses a listed request that leaves its region. */
  predicate Whole(regions: seq<Chunk>, x: nat, n: nat) {
    Listed(regions, x) && x + n <= regions[Lookup(regions, x)].ptr + regions[Lookup(regions, x)].size
  }

  predicate Overruns(regions: seq<Chunk>, x: nat, n: nat) {
    Listed(regions, x) && !Whole(regions, x, n)
  }

  /** Every 4 KiB or 2 MiB page of guest memory outside the I/O gap lies in one
      physical region. */
  lemma PhysWhole(guestSize: nat, x: nat, n: nat)
    requires guestSize < GAP_START || guestSize >= GAP_END
    requires n in {0x1000, 0x20_0000} && x % n == 0 && x + n <= guestSize
    requires forall y :: x <= y < x + n ==> !InGap(y)
    ensures Whole(PhysChunks(guestSize), x, n)
  {
    var cs := PhysChunks(guestSize);
    assert !InGap(x);
    if x < GAP_START {
      assert x + n <= GAP_START by { Aligned(x, n); }
      assert Lookup(cs, x) == 0;
    } else {
      assert cs[1..] == [Chunk(GAP_END, guestSize - GAP_END)];
      assert Lookup(cs[1..], x) == 0;
      assert Lookup(cs, x) == 1;
    }
  }

  /** The physical regions hold an address if and only if it is guest memory outside the
      I/O gap. */
  lemma PhysExact(guestSize: nat, x: nat)
    requires guestSize < GAP_START || guestSize >= GAP_END
    ensures Listed(PhysChunks(guestSize), x) <==> x < guestSize && !(0xD000_0000 <= x < 0x1_0000_0000)
  {
    var cs := PhysChunks(guestSize);
    if guestSize >= GAP_END { assert Contains(cs[1], x) <==> GAP_END <= x < guestSize; }
    assert Contains(cs[0], x) <==> x < GAP_START && x < guestSize;
  }

  lemma Aligned(x: nat, n: nat)
    requires n in {0x1000, 0x20_0000} && x % n == 0 && x < GAP_START
    ensures x + n <= GAP_START
  {
    assert GAP_START == GAP_START / n * n;
    if n == 0x1000 {
      assert x / 0x1000 < GAP_START / 0x1000;
    } else {
      assert x / 0x20_0000 < GAP_START / 0x20_0000;
    }
  }

  /** Whatever the allocation list registers lies behind the kernel's start: the
      first 8 MiB never travel in a cold migration. */
  lemma NothingBelowFirst(rs: seq<Region>, guestSize: nat, x: nat)
    requires Sane(rs, guestSize) && x < FIRST
    ensures AllCuttable(Parts(rs, guestSize))
    ensures !Listed(Counted(rs, guestSize), x)
  {
    ChunksCover(rs, guestSize, x);
    var cs, counted := CutAll(Parts(rs, guestSize)), Counted(rs, guestSize);
    forall i | 0 <= i < |counted| ensures !Contains(counted[i], x) {
      assert counted[i] == cs[i];
    }
  }
}
