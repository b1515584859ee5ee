/** The singly linked list of queue.h (lines 118-155) with breakpoint entries
    (uhyve-gdb.c:70-88), rewired in place. */
module SList {
  import opened Bytes

  datatype Kind = Sw | Hw | WatchWrite | WatchRead | WatchAccess

  /** breakpoint_t. */
  class Entry {
    const kind: Kind
    const addr: nat
    const len: nat
    var refcount: nat
    var saved: byte
    var next: Entry?

    constructor (k: Kind, a: nat, l: nat)
      ensures kind == k && addr == a && len == l && refcount == 1 && saved == 0 && next == null
    {
      kind, addr, len, refcount, saved, next := k, a, l, 1, 0, null;
    }
  }

  function Without<T>(s: seq<T>, i: nat): seq<T>
    requires i < |s|
  {
    s[..i] + s[i + 1..]
  }

  predicate Distinct<T(==)>(s: seq<T>) {
    forall i, j :: 0 <= i < |s| && 0 <= j < |s| && s[i] == s[j] ==> i == j
  }

  /** The successor of entry i. */
  function After(s: seq<Entry>, i: nat): Entry? {
    if i + 1 < |s| then s[i + 1] else null
  }

  lemma DistinctCons<T>(x: T, s: seq<T>)
    requires Distinct(s) && x !in s
    ensures Distinct([x] + s)
  {
    forall i, j | 0 <= i < |s| + 1 && 0 <= j < |s| + 1 && ([x] + s)[i] == ([x] + s)[j] ensures i == j {
      if i > 0 { assert ([x] + s)[i] == s[i - 1]; }
      if j > 0 { assert ([x] + s)[j] == s[j - 1]; }
    }
  }

  lemma DistinctWithout<T>(s: seq<T>, k: nat)
    requires Distinct(s) && k < |s|
    ensures Distinct(Without(s, k))
  {
    forall i, j | 0 <= i < |s| - 1 && 0 <= j < |s| - 1 && Without(s, k)[i] == Without(s, k)[j] ensures i == j {
      assert Without(s, k)[i] == s[if i < k then i else i + 1];
      assert Without(s, k)[j] == s[if j < k then j else j + 1];
    }
  }

  class List {
    var first: Entry?
    ghost var spine: seq<Entry>

    /** The list is the chain of entries in `spine`, without repetition. */
    ghost predicate Valid()
      reads this, (set x | x in spine)`next
    {
      && first == (if spine == [] then null else spine[0])
      && (forall i: nat :: i < |spine| ==> spine[i].next == After(spine, i))
      && Distinct(spine)
    }

    /** SLIST_INIT. */
    constructor ()
      ensures Valid() && spine == []
    {
      first, spine := null, [];
    }

    /** SLIST_INSERT_HEAD. */
    method InsertHead(e: Entry)
      requires Valid() && e !in spine
      modifies this, e`next
      ensures Valid() && spine == [e] + old(spine)
    {
      e.next := first;
      first := e;
      DistinctCons(e, spine);
      spine := [e] + spine;
    }

    /** SLIST_FOREACH until the address and the length match. */
    method Find(addr: nat, len: nat) returns (e: Entry?, ghost i: nat)
      requires Valid()
      ensures i <= |spine| && (e == null <==> i == |spine|)
      ensures i < |spine| ==> e == spine[i] && e.addr == addr && e.len == len
      ensures forall j :: 0 <= j < i ==> !(spine[j].addr == addr && spine[j].len == len)
      ensures e == null <==> forall j :: 0 <= j < |spine| ==> !(spine[j].addr == addr && spine[j].len == len)
      ensures e != null ==> e in spine && e.addr == addr && e.len == len
    {
      e, i := first, 0;
      while e != null && !(e.addr == addr && e.len == len)
        invariant i <= |spine| && e == (if i < |spine| then spine[i] else null)
        invariant forall j :: 0 <= j < i ==> !(spine[j].addr == addr && spine[j].len == len)
        decreases |spine| - i
      {
        e := e.next;
        i := i + 1;
      }
    }

    /** SLIST_REMOVE: the cursor walks to the predecessor and bypasses the entry. */
    method Remove(e: Entry, ghost k: nat)
      requires Valid() && k < |spine| && spine[k] == e
      modifies this, (set x | x in spine)`next
      ensures Valid() && spine == Without(old(spine), k)
    {
      ghost var was := spine;
      DistinctWithout(was, k);
      if first == e {
        assert was[0] == was[k];
        first := e.next;
      } else {
        var cur := first;
        ghost var i := 0;
        while cur.next != e
          invariant i < k && cur == spine[i]
          decreases k - i
        {
          cur := cur.next;
          i := i + 1;
        }
        assert was[i + 1] == was[k];
        cur.next := e.next;
        forall j: nat | j < |was| && j != i ensures was[j] != cur {
          assert was[i] == cur;
        }
      }
      spine := Without(spine, k);
    }
  }
}
