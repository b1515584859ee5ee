/** The RDMA send list: chunking of memory regions, signalling, and posting with
    bounded queues (uhyve-migration-rdma.c:640-856, 914-918, 936-983). */
module SendQueue {
  import opened Bytes
  import opened FreeList
  import opened Pte
  import opened Regions

  const IB_MAX_SEND_WR: nat := 8192
  const IB_WR_WRITE_LAST_PAGE_ID: nat := 1
  const IB_WR_BASE_ID: nat := 3

  /** A work request. Addresses are offsets into guest memory; `key` is the index of
      the memory region whose keys the request carries. */
  datatype Wr = Wr(id: nat, signalled: bool, local: nat, length: nat, remote: nat, key: nat)

  /** The verbs side: requests complete in order, a polled completion retires every
      request up to it, and the completion queue has one entry. */
  class QueuePair {
    var sent: seq<Wr>
    var retired: nat

    ghost predicate Valid()
      reads this
    {
      retired <= |sent| && |sent| - retired <= IB_MAX_SEND_WR && AtMostOne(sent[retired..])
    }

    constructor ()
      ensures Valid() && sent == [] && retired == 0
    {
      sent, retired := [], 0;
    }

    /** ibv_post_send: accepts what fits and returns the rest. */
    method PostSend(list: seq<Wr>) returns (remaining: seq<Wr>)
      requires Valid()
      requires AtMostOne((sent + list[..Room(list)])[retired..])
      modifies this
      ensures Valid() && retired == old(retired)
      ensures remaining == list[old(Room(list))..] && sent == old(sent) + list[..old(Room(list))]
    {
      var n := Room(list);
      sent := sent + list[..n];
      remaining := list[n..];
    }

    function Room(list: seq<Wr>): (n: nat)
      requires retired <= |sent| && |sent| - retired <= IB_MAX_SEND_WR
      reads this
      ensures n <= |list|
    {
      var free := IB_MAX_SEND_WR - (|sent| - retired);
      if |list| <= free then |list| else free
    }

    /** Polls until a completion arrives; without an outstanding signalled request
        that would never happen. */
    method PollCq() returns (id: nat)
      requires Valid() && exists k :: retired <= k < |sent| && sent[k].signalled
      modifies this
      ensures Valid() && sent == old(sent) && old(retired) < retired <= |sent|
      ensures sent[retired - 1].signalled && id == sent[retired - 1].id
      ensures forall k :: old(retired) <= k < retired - 1 ==> !sent[k].signalled
    {
      var k := retired;
      while !sent[k].signalled
        invariant retired <= k < |sent|
        invariant forall j :: retired <= j < k ==> !sent[j].signalled
        invariant exists j :: k <= j < |sent| && sent[j].signalled
        decreases |sent| - k
      {
        k := k + 1;
      }
      id := sent[k].id;
      retired := k + 1;
    }
  }

  ghost predicate AtMostOne(s: seq<Wr>) {
    forall j, k :: 0 <= j < |s| && 0 <= k < |s| && s[j].signalled && s[k].signalled ==> j == k
  }

  /** Every 8192nd request, counted from 1, asks for a completion. */
  predicate Nth(k: int) {
    (k + 1) % IB_MAX_SEND_WR == 0
  }

  predicate Spaced(list: seq<Wr>) {
    forall k :: 0 <= k < |list| ==> (list[k].signalled <==> Nth(k)) && list[k].id > IB_WR_BASE_ID
  }

  /** The list handed to process_send_list: also the last request is signalled, and
      only it carries the last-page id. */
  predicate Sealed(list: seq<Wr>) {
    && list != []
    && forall k :: 0 <= k < |list| ==>
         && (list[k].signalled <==> Nth(k) || k == |list| - 1)
         && (list[k].id == IB_WR_WRITE_LAST_PAGE_ID <==> k == |list| - 1)
  }

  function Carries(w: Wr, x: int): bool {
    w.local <= x < w.local + w.length
  }

  /** How many requests carry byte x. */
  function Carried(list: seq<Wr>, x: int): nat {
    if list == [] then 0 else Carried(list[..|list| - 1], x) + (if Carries(list[|list| - 1], x) then 1 else 0)
  }

  /** How many regions hold byte x. */
  function Held(regions: seq<Chunk>, x: int): nat {
    if regions == [] then 0
    else Held(regions[..|regions| - 1], x) + (if Contains(regions[|regions| - 1], x) then 1 else 0)
  }

  ghost predicate Addressable(regions: seq<Chunk>) {
    forall i :: 0 <= i < |regions| ==> regions[i].ptr + regions[i].size < TWO_63
  }

  /** Regions and message size are made of whole pages. */
  ghost predicate WholePages(regions: seq<Chunk>, max: nat) {
    && max % PAGE_SIZE == 0
    && forall i :: 0 <= i < |regions| ==> regions[i].ptr % PAGE_SIZE == 0
  }

  /** A request for bytes of region `key`, of legal size, written where
      determine_dest_offset says; with whole pages that is where they come from. */
  ghost predicate Proper(regions: seq<Chunk>, max: nat, w: Wr) {
    && 0 < w.length <= max && w.key < |regions|
    && Contains(regions[w.key], w.local) && w.local + w.length <= regions[w.key].ptr + regions[w.key].size
    && w.local < TWO_63 && w.remote == DestOffset(w.local)
    && (WholePages(regions, max) ==> w.remote == w.local)
  }

  ghost predicate Disjoint(regions: seq<Chunk>) {
    forall i, j, x :: 0 <= i < |regions| && 0 <= j < |regions| && Contains(regions[i], x) && Contains(regions[j], x) ==>
      i == j
  }

  class Sender {
    const qp: QueuePair
    const regions: seq<Chunk>
    const maxMsgSz: nat
    var sendList: seq<Wr>
    var sendListLength: nat
    var curWrId: nat

    ghost predicate Valid()
      reads this
    {
      && maxMsgSz > 0 && Addressable(regions) && Disjoint(regions)
      && curWrId >= IB_WR_BASE_ID && sendListLength == |sendList| && Spaced(sendList)
    }

    constructor (q: QueuePair, mrs: seq<Chunk>, max: nat)
      requires max > 0 && Addressable(mrs) && Disjoint(mrs)
      ensures Valid() && qp == q && regions == mrs && maxMsgSz == max && sendList == []
    {
      qp, regions, maxMsgSz := q, mrs, max;
      sendList, sendListLength, curWrId := [], 0, IB_WR_BASE_ID;
    }

    method AppendToSendList(w: Wr)
      requires Valid() && w.id > IB_WR_BASE_ID && !w.signalled
      modifies this`sendList, this`sendListLength
      ensures Valid() && sendList == old(sendList) + [w.(signalled := Nth(|old(sendList)|))]
    {
      sendList := sendList + [w];
      sendListLength := sendListLength + 1;
      if sendListLength % IB_MAX_SEND_WR == 0 {
        sendList := sendList[|sendList| - 1 := w.(signalled := true)];
      }
    }

    /** The page is looked up among the regions, first match first; without a match
        nothing is listed. */
    method CreateSendListEntry(entry: U64, page: nat, size: nat)
      requires Valid()
      modifies this`sendList, this`sendListLength, this`curWrId
      ensures Valid()
      ensures !Listed(regions, page) ==> sendList == old(sendList)
      ensures Listed(regions, page) ==>
                |sendList| == |old(sendList)| + 1 && sendList[..|old(sendList)|] == old(sendList)
                && var w := sendList[|old(sendList)|];
                   && w.local == page && w.length == size && w.key == Lookup(regions, page)
                   && w.remote == DestOffset(entry)
    {
      curWrId := curWrId + 1;
      var i := 0;
      while i < |regions| && !Contains(regions[i], page)
        invariant 0 <= i <= |regions|
        invariant forall j :: 0 <= j < i ==> !Contains(regions[j], page)
      {
        i := i + 1;
      }
      if i == |regions| { return; }
      AppendToSendList(Wr(curWrId, false, page, size, DestOffset(entry), i));
    }

    /** One region of enqueue_all_mrs: full chunks, then the remainder. */
    method EnqueueRegion(i: nat)
      requires Valid() && i < |regions|
      modifies this`sendList, this`sendListLength, this`curWrId
      ensures Valid() && Extends(old(sendList), sendList)
      ensures forall x :: Carried(sendList, x) == Carried(old(sendList), x) + (if Contains(regions[i], x) then 1 else 0)
    {
      hide Spaced, Disjoint, Carried;
      var r := regions[i];
      var chunk, chunks := 0, r.size / maxMsgSz;
      Chunks(r.size, maxMsgSz);
      while chunk < chunks
        invariant 0 <= chunk <= chunks && Valid() && Extends(old(sendList), sendList)
        invariant forall x :: Carried(sendList, x) == Carried(old(sendList), x) + Started(r, chunk * maxMsgSz, x)
      {
        ChunkStep(chunk, chunks, maxMsgSz);
        if WholePages(regions, maxMsgSz) { PageMultiple(chunk, maxMsgSz); }
        Enqueue(i, chunk * maxMsgSz, maxMsgSz);
        chunk := chunk + 1;
      }
      var remainder := r.size % maxMsgSz;
      if remainder != 0 {
        if WholePages(regions, maxMsgSz) { PageMultiple(chunks, maxMsgSz); }
        Enqueue(i, r.size - remainder, remainder);
      }
    }

    /** create_send_list_entry for bytes from..from+size of region i. */
    method Enqueue(i: nat, from: nat, size: nat)
      requires Valid() && i < |regions| && 0 < size <= maxMsgSz && from + size <= regions[i].size
      requires WholePages(regions, maxMsgSz) ==> from % PAGE_SIZE == 0
      modifies this`sendList, this`sendListLength, this`curWrId
      ensures Valid() && Extends(old(sendList), sendList)
      ensures forall x :: Carried(sendList, x)
                == Carried(old(sendList), x) + Started(regions[i], from + size, x) - Started(regions[i], from, x)
    {
      hide Spaced, Disjoint, Carried, DestOffset, WholePages;
      var page := regions[i].ptr + from;
      LookupIs(regions, i, page);
      CreateSendListEntry(page, page, size);
      ghost var w := sendList[|old(sendList)|];
      assert sendList == old(sendList) + [w];
      if WholePages(regions, maxMsgSz) { AlignedEntry(regions, maxMsgSz, i, from); }
      forall x
        ensures Carried(sendList, x)
                == Carried(old(sendList), x) + Started(regions[i], from + size, x) - Started(regions[i], from, x)
      {
        CarriedSnoc(old(sendList), w, x);
      }
    }

    /** Every extension is by proper requests. */
    ghost predicate Extends(before: seq<Wr>, after: seq<Wr>) {
      before <= after && forall k :: |before| <= k < |after| ==> Proper(regions, maxMsgSz, after[k])
    }

    /** Each byte of each region is enqueued exactly once and nothing else is. */
    method EnqueueAllMrs()
      requires Valid() && sendList == []
      modifies this`sendList, this`sendListLength, this`curWrId
      ensures Valid() && Extends([], sendList)
      ensures forall x :: Carried(sendList, x) == Held(regions, x)
    {
      hide Spaced, Disjoint, Proper;
      for i := 0 to |regions|
        invariant Valid() && Extends([], sendList)
        invariant forall x :: Carried(sendList, x) == Held(regions[..i], x)
      {
        EnqueueRegion(i);
        assert regions[..i + 1][..i] == regions[..i];
      }
      assert regions[..|regions|] == regions;
    }

    /** The last request asks for a completion under the last-page id
        (uhyve-migration-rdma.c:916-918, 968-978); an empty list gets a dummy. */
    method Seal()
      requires Valid()
      modifies this`sendList, this`sendListLength, this`curWrId
      ensures Sealed(sendList) && sendListLength == |sendList| && curWrId >= IB_WR_BASE_ID
      ensures Same(sendList, if old(sendList) == [] then [Wr(0, false, 0, 0, 0, 0)] else old(sendList))
    {
      if sendListLength == 0 {
        curWrId := curWrId + 1;
        AppendToSendList(Wr(curWrId, false, 0, 0, 0, 0));
      }
      var last := |sendList| - 1;
      sendList := sendList[last := sendList[last].(id := IB_WR_WRITE_LAST_PAGE_ID, signalled := true)];
    }

    /** stop_and_copy_phase of a cold migration with complete dump: whatever the two
        memories hold, afterwards the destination equals the source on every byte of
        every registered region, and is untouched elsewhere. */
    method CompleteDump() returns (lastId: nat)
      requires Valid() && sendList == [] && qp.Valid() && qp.retired == |qp.sent|
      modifies qp, this`sendList, this`sendListLength, this`curWrId
      ensures Valid() && sendList == [] && qp.Valid() && qp.retired == |qp.sent|
      ensures lastId == IB_WR_WRITE_LAST_PAGE_ID && old(qp.sent) <= qp.sent
      ensures WholePages(regions, maxMsgSz) ==>
                forall src: seq<byte>, dest: seq<byte>, x: nat :: |src| == |dest| && x < |dest| ==>
                  Delivered(qp.sent[|old(qp.sent)|..], src, dest)[x] == if Held(regions, x) > 0 then src[x] else dest[x]
    {
      EnqueueAllMrs();
      ghost var listed := sendList;
      Seal();
      ghost var sealed := sendList;
      var posts;
      posts, lastId := ProcessSendList();
      assert qp.sent[|old(qp.sent)|..] == sealed;
      if WholePages(regions, maxMsgSz) {
        forall src: seq<byte>, dest: seq<byte>, x: nat | |src| == |dest| && x < |dest|
          ensures Delivered(sealed, src, dest)[x] == if Held(regions, x) > 0 then src[x] else dest[x]
        {
          SealedCarries(listed, sealed, x);
          CarriedArrive(sealed, src, dest, x);
        }
      }
    }

    /** process_send_list: one completion is polled after every post. */
    method ProcessSendList() returns (posts: nat, lastId: nat)
      requires Sealed(sendList) && curWrId >= IB_WR_BASE_ID && maxMsgSz > 0 && Addressable(regions) && Disjoint(regions)
      requires qp.Valid() && qp.retired == |qp.sent|
      modifies qp, this`sendList, this`sendListLength
      ensures qp.Valid() && qp.sent == old(qp.sent + sendList)
      ensures qp.retired == |qp.sent| && lastId == IB_WR_WRITE_LAST_PAGE_ID
      ensures posts == (old(|sendList|) + IB_MAX_SEND_WR - 1) / IB_MAX_SEND_WR
      ensures Valid() && sendList == []
    {
      hide Sealed, AtMostOne, Addressable, Disjoint;
      SealedNonempty(sendList);
      ghost var all, base := sendList, qp.sent;
      posts, lastId := 0, 0;
      var more := true;
      while more
        invariant 0 <= posts * IB_MAX_SEND_WR <= |all| + IB_MAX_SEND_WR - 1
        invariant qp.Valid() && qp.retired == |qp.sent|
        invariant more ==> posts * IB_MAX_SEND_WR < |all| && qp.sent == base + all[..posts * IB_MAX_SEND_WR]
                           && sendList == all[posts * IB_MAX_SEND_WR..]
        invariant !more ==> qp.sent == base + all && sendList == [] && lastId == IB_WR_WRITE_LAST_PAGE_ID
                            && |all| <= posts * IB_MAX_SEND_WR
        decreases |sendList|, more
      {
        ghost var from := posts * IB_MAX_SEND_WR;
        Batch(qp.sent, all, from, qp.Room(sendList));
        sendList := qp.PostSend(sendList);
        assert qp.sent == base + all[..|qp.sent| - |base|];
        assert qp.sent[|qp.sent| - 1] == all[|qp.sent| - |base| - 1];
        lastId := qp.PollCq();
        posts := posts + 1;
        more := sendList != [];
      }
      sendListLength := 0;
    }
  }

  /** The same transfers, in the same order. */
  ghost predicate Same(a: seq<Wr>, b: seq<Wr>) {
    |a| == |b| && forall k :: 0 <= k < |a| ==>
      a[k].local == b[k].local && a[k].length == b[k].length && a[k].remote == b[k].remote && a[k].key == b[k].key
  }

  lemma LookupIs(regions: seq<Chunk>, i: nat, x: nat)
    requires Disjoint(regions) && i < |regions| && Contains(regions[i], x)
    ensures Lookup(regions, x) == i
  {}

  function Started(r: Chunk, n: nat, x: int): int {
    if r.ptr <= x < r.ptr + n then 1 else 0
  }

  lemma Chunks(length: nat, max: nat)
    requires max > 0
    ensures length == length / max * max + length % max
  {}

  lemma ChunkStep(chunk: nat, chunks: nat, max: nat)
    requires chunk < chunks
    ensures (chunk + 1) * max == chunk * max + max <= chunks * max
  {}

  lemma CarriedSnoc(list: seq<Wr>, w: Wr, x: int)
    ensures Carried(list + [w], x) == Carried(list, x) + (if Carries(w, x) then 1 else 0)
  {
    assert (list + [w])[..|list|] == list;
  }

  lemma AlignedEntry(regions: seq<Chunk>, max: nat, i: nat, from: nat)
    requires WholePages(regions, max) && i < |regions| && from % PAGE_SIZE == 0 && regions[i].ptr + from < TWO_63
    ensures DestOffset(regions[i].ptr + from) == regions[i].ptr + from
  {
    hide DestOffset;
    PagesAdd(regions[i].ptr, from);
    AlignedOffset(regions[i].ptr + from);
  }

  lemma PagesAdd(a: nat, b: nat)
    requires a % PAGE_SIZE == 0 && b % PAGE_SIZE == 0
    ensures (a + b) % PAGE_SIZE == 0
  {}

  lemma PageMultiple(chunk: nat, max: nat)
    requires max % PAGE_SIZE == 0
    ensures chunk * max % PAGE_SIZE == 0
  {
    var pages := max / PAGE_SIZE;
    assert max == PAGE_SIZE * pages;
    assert chunk * max == PAGE_SIZE * (chunk * pages);
  }

  /** determine_dest_offset, written for table entries, leaves a plain offset alone
      exactly when it is a page boundary. */
  lemma AlignedOffset(offset: nat)
    requires offset < TWO_63
    ensures DestOffset(offset) == offset <==> offset % PAGE_SIZE == 0
  {
    hide Has, Masked;
    MaskedBelow(offset, PAGE_SIZE);
    MaskedBelow(offset, PAGE_2M_SIZE);
    if offset % PAGE_2M_SIZE == 0 { PagesNest(offset); }
    if offset % PAGE_SIZE == 0 {
      PageHasNoPse(offset);
    }
  }

  lemma MaskedBelow(offset: nat, size: U64)
    requires offset < TWO_63 && size in {PAGE_SIZE, PAGE_2M_SIZE}
    ensures Masked(offset, size) == offset - offset % size
  {
    assert offset % TWO_63 == offset;
  }

  lemma PagesNest(offset: nat)
    requires offset % 0x20_0000 == 0
    ensures offset % 0x1000 == 0
  {
    var large := offset / 0x20_0000;
    var k := 0x200 * large - offset / 0x1000;
    assert offset % 0x1000 == 0x1000 * k;
  }

  lemma PageHasNoPse(offset: U64)
    requires offset % PAGE_SIZE == 0
    ensures !Has(offset, PG_PSE)
  {
    var page := offset / 0x1000;
    assert offset == 0x1000 * page;
    assert offset / 0x80 == 32 * page;
  }

  lemma SealedNonempty(list: seq<Wr>)
    requires Sealed(list)
    ensures list != []
  {}

  /** A batch that fills the queue exactly asks for one completion, for its last
      request; that of the final batch carries the last-page id. */
  lemma Batch(sent: seq<Wr>, all: seq<Wr>, from: nat, n: nat)
    requires Sealed(all) && from < |all| && from % IB_MAX_SEND_WR == 0
    requires n == if |all| - from <= IB_MAX_SEND_WR then |all| - from else IB_MAX_SEND_WR
    ensures AtMostOne((sent + all[from..][..n])[|sent|..])
    ensures forall k :: from <= k < from + n ==> (all[k].signalled <==> k == from + n - 1)
    ensures from + n == |all| ==> all[from + n - 1].id == IB_WR_WRITE_LAST_PAGE_ID
  {
    assert (sent + all[from..][..n])[|sent|..] == all[from..from + n];
    forall k | from <= k < from + n ensures all[k].signalled <==> k == from + n - 1 {
      assert Nth(k) <==> k == from + IB_MAX_SEND_WR - 1;
    }
  }

  // ------------------------------------------------- what the requests deliver

  /** The destination after the adapter has performed a list of RDMA writes. */
  function Delivered<T>(list: seq<Wr>, src: seq<T>, dest: seq<T>): (r: seq<T>)
    requires |src| == |dest|
    ensures |r| == |dest|
  {
    if list == [] then dest
    else
      var w, d := list[|list| - 1], Delivered(list[..|list| - 1], src, dest);
      seq(|dest|, x requires 0 <= x < |src| && |d| == |src| =>
        if w.remote <= x < w.remote + w.length && w.local + (x - w.remote) < |src| then src[w.local + (x - w.remote)]
        else d[x])
  }

  /** In-place writes deliver exactly the bytes that some request carries. */
  lemma {:induction false} CarriedArrive<T>(list: seq<Wr>, src: seq<T>, dest: seq<T>, x: nat)
    requires |src| == |dest| && x < |dest|
    requires forall k :: 0 <= k < |list| ==> list[k].remote == list[k].local
    ensures Delivered(list, src, dest)[x] == if Carried(list, x) > 0 then src[x] else dest[x]
  {
    if list != [] {
      CarriedArrive(list[..|list| - 1], src, dest, x);
    }
  }

  lemma {:induction false} SameCarried(a: seq<Wr>, b: seq<Wr>, x: int)
    requires Same(a, b)
    ensures Carried(a, x) == Carried(b, x)
  {
    if a != [] {
      SameCarried(a[..|a| - 1], b[..|b| - 1], x);
    }
  }

  lemma SealedCarries(listed: seq<Wr>, sealed: seq<Wr>, x: int)
    requires Same(sealed, if listed == [] then [Wr(0, false, 0, 0, 0, 0)] else listed)
    ensures Carried(sealed, x) == Carried(listed, x)
  {
    SameCarried(sealed, if listed == [] then [Wr(0, false, 0, 0, 0, 0)] else listed, x);
    assert Carried([Wr(0, false, 0, 0, 0, 0)], x) == 0;
  }
}
