/** The breakpoint lists of the GDB stub and the guest memory they patch
    (uhyve-gdb.c:66-90, 678-714, 776-892, 1040-1088). */
module Breakpoints {
  import opened Bytes
  import opened SList

  const INT3: byte := 0xCC
  const MAX_HW_BREAKPOINTS: nat := 4

  datatype Bp = Bp(kind: Kind, addr: nat, len: nat, saved: byte)

  /** What a debugger can see of the stub: newest breakpoint first. */
  datatype Stub = Stub(sw: seq<Bp>, hw: seq<Bp>, mem: seq<byte>)

  datatype Command = Insert(kind: Kind, addr: nat, len: nat) | Remove(kind: Kind, addr: nat, len: nat)

  /** Abort: the assertion that the patch is still in place fails. */
  datatype Result = Reply(stub: Stub, code: int) | Abort

  /** The first entry with this address and length, or the length of the list. The
      kind is not compared. */
  function IndexOf(bps: seq<Bp>, addr: nat, len: nat): (i: nat)
    ensures i <= |bps|
    ensures i < |bps| ==> bps[i].addr == addr && bps[i].len == len
    ensures forall j :: 0 <= j < i ==> !(bps[j].addr == addr && bps[j].len == len)
  {
    if bps == [] then 0 else if bps[0].addr == addr && bps[0].len == len then 0 else 1 + IndexOf(bps[1..], addr, len)
  }

  /** One Z or z command. */
  function Do(c: Command, s: Stub): Result
    requires c.kind == Sw ==> c.addr < |s.mem|
  {
    var bps := if c.kind == Sw then s.sw else s.hw;
    var i := IndexOf(bps, c.addr, c.len);
    match c
    case Insert(kind, addr, len) =>
      if i < |bps| then Reply(s, 0)
      else if kind == Sw then Reply(Stub([Bp(kind, addr, len, s.mem[addr])] + s.sw, s.hw, s.mem[addr := INT3]), 0)
      else if |s.hw| == MAX_HW_BREAKPOINTS then Reply(s, -1)
      else Reply(s.(hw := [Bp(kind, addr, len, 0)] + s.hw), 0)
    case Remove(kind, addr, _) =>
      if i == |bps| then Reply(s, -1)
      else if kind != Sw then Reply(s.(hw := Without(s.hw, i)), 0)
      else if s.mem[addr] != INT3 then Abort
      else Reply(Stub(Without(s.sw, i), s.hw, s.mem[addr := s.sw[i].saved]), 0)
  }

  /** Entries of one list, each used once, show these breakpoints. */
  ghost predicate Shows(es: seq<Entry>, bps: seq<Bp>, sw: bool)
    reads (set e | e in es)`saved, (set e | e in es)`refcount
  {
    |es| == |bps| && forall i: nat :: i < |es| ==> Holds(es[i], bps[i], sw)
  }

  ghost predicate Holds(e: Entry, b: Bp, sw: bool)
    reads e`saved, e`refcount
  {
    b == Bp(e.kind, e.addr, e.len, e.saved) && e.refcount == 1 && (sw <==> e.kind == Sw)
  }

  lemma HoldsNew(e: Entry, b: Bp)
    requires b == Bp(e.kind, e.addr, e.len, e.saved) && e.refcount == 1
    ensures Holds(e, b, b.kind == Sw)
  {}

  lemma ShowsLength(es: seq<Entry>, bps: seq<Bp>, sw: bool)
    requires Shows(es, bps, sw)
    ensures |es| == |bps|
  {}

  lemma ShowsCons(e: Entry, b: Bp, es: seq<Entry>, bps: seq<Bp>, sw: bool)
    requires Holds(e, b, sw) && Shows(es, bps, sw)
    ensures Shows([e] + es, [b] + bps, sw)
  {}

  lemma ShowsWithout(es: seq<Entry>, bps: seq<Bp>, sw: bool, i: nat)
    requires Shows(es, bps, sw) && i < |es|
    ensures Shows(Without(es, i), Without(bps, i), sw)
  {}

  lemma HeadOnce(list: List)
    requires list.Valid() && list.spine != []
    ensures forall i :: 0 < i < |list.spine| ==> list.spine[i] != list.spine[0]
  {}

  /** No entry is in both lists. */
  lemma Apart(es: seq<Entry>, sw: seq<Bp>, fs: seq<Entry>, hw: seq<Bp>)
    requires Shows(es, sw, true) && Shows(fs, hw, false)
    ensures |es| == |sw| && |fs| == |hw| && forall e :: e in es ==> e !in fs
  {}

  class Gdb {
    const swBreakpoints: List
    const hwBreakpoints: List
    const guestMem: array<byte>
    var nrHwBreakpoints: nat
    ghost var stub: Stub

    ghost predicate Valid()
      reads this, swBreakpoints, hwBreakpoints, swBreakpoints.spine, hwBreakpoints.spine, guestMem
    {
      && swBreakpoints.Valid() && hwBreakpoints.Valid() && swBreakpoints != hwBreakpoints
      && Shows(swBreakpoints.spine, stub.sw, true) && Shows(hwBreakpoints.spine, stub.hw, false)
      && nrHwBreakpoints == |stub.hw| <= MAX_HW_BREAKPOINTS && stub.mem == guestMem[..]
    }

    constructor (mem: array<byte>)
      ensures Valid() && stub == Stub([], [], mem[..]) && guestMem == mem
    {
      swBreakpoints := new List();
      hwBreakpoints := new List();
      guestMem, nrHwBreakpoints := mem, 0;
      stub := Stub([], [], mem[..]);
    }

    method BpListFind(kind: Kind, addr: nat, len: nat) returns (e: Entry?, ghost i: nat)
      requires Valid()
      ensures i == IndexOf(if kind == Sw then stub.sw else stub.hw, addr, len)
      ensures Found(e, i, kind)
    {
      if kind == Sw {
        e, i := swBreakpoints.Find(addr, len);
      } else {
        e, i := hwBreakpoints.Find(addr, len);
      }
    }

    ghost predicate Found(e: Entry?, i: nat, kind: Kind)
      reads this, swBreakpoints, hwBreakpoints
      reads if e == null then {} else {e}
    {
      var es := if kind == Sw then swBreakpoints.spine else hwBreakpoints.spine;
      var bps := if kind == Sw then stub.sw else stub.hw;
      i <= |bps| && if e == null then i == |bps| else i < |es| && i < |bps| && e == es[i] && e.saved == bps[i].saved
    }

    /** bp_list_insert, called only when bp_list_find has found nothing: no entry is
        ever shared, so every reference count is 1. */
    method BpListInsert(kind: Kind, addr: nat, len: nat) returns (e: Entry?)
      requires Valid()
      modifies this`nrHwBreakpoints, this`stub, swBreakpoints, hwBreakpoints
      ensures Valid() && (e == null <==> kind != Sw && |old(stub.hw)| == MAX_HW_BREAKPOINTS)
      ensures stub == if e == null then old(stub) else Listed(Bp(kind, addr, len, 0), old(stub))
      ensures e != null ==> fresh(e) && (kind == Sw ==> swBreakpoints.spine != [] && e == swBreakpoints.spine[0])
    {
      hide List.Valid, Shows, Holds;
      e := new Entry(kind, addr, len);
      ghost var b := Bp(kind, addr, len, 0);
      HoldsNew(e, b);
      if kind == Sw {
        ShowsCons(e, b, swBreakpoints.spine, stub.sw, true);
        swBreakpoints.InsertHead(e);
        stub := stub.(sw := [b] + stub.sw);
      } else {
        ShowsLength(hwBreakpoints.spine, stub.hw, false);
        if nrHwBreakpoints == MAX_HW_BREAKPOINTS { return null; }
        nrHwBreakpoints := nrHwBreakpoints + 1;
        ShowsCons(e, b, hwBreakpoints.spine, stub.hw, false);
        hwBreakpoints.InsertHead(e);
        stub := stub.(hw := [b] + stub.hw);
      }
    }

    /** kvm_arch_insert_sw_breakpoint. */
    method PatchInt3(e: Entry)
      requires Valid() && swBreakpoints.spine != [] && e == swBreakpoints.spine[0]
      requires stub.sw != [] && stub.sw[0].addr < |stub.mem|
      modifies this`stub, e`saved, guestMem
      ensures Valid() && stub == Patch(old(stub))
    {
      hide List.Valid;
      ghost var es, hs := swBreakpoints.spine, hwBreakpoints.spine;
      HeadOnce(swBreakpoints);
      Apart(es, stub.sw, hs, stub.hw);
      label before:
      e.saved := guestMem[e.addr];
      guestMem[e.addr] := INT3;
      stub := Patch(stub);
      forall i: nat | i < |es| ensures Holds(es[i], stub.sw[i], true) {
        if i > 0 { assert old@before(Holds(es[i], stub.sw[i], true)); }
      }
      assert Shows(hs, stub.hw, false);
    }

    /** uhyve_gdb_add_breakpoint. */
    method AddBreakpoint(kind: Kind, addr: nat, len: nat) returns (code: int)
      requires Valid() && (kind == Sw ==> addr < |stub.mem|)
      modifies this`nrHwBreakpoints, this`stub, swBreakpoints, hwBreakpoints, guestMem
      ensures Valid() && Reply(stub, code) == Do(Insert(kind, addr, len), old(stub))
    {
      hide IndexOf, Valid;
      var bp, i := BpListFind(kind, addr, len);
      if bp != null { return 0; }
      var e := BpListInsert(kind, addr, len);
      if e == null { return -1; }
      if kind == Sw {
        PatchInt3(e);
      }
      code := 0;
    }

    /** bp_list_remove of the entry bp_list_find has found. */
    method BpListRemove(kind: Kind, e: Entry, ghost i: nat)
      requires Valid() && Found(e, i, kind)
      modifies this`nrHwBreakpoints, this`stub, swBreakpoints, hwBreakpoints
      modifies (set x | x in swBreakpoints.spine)`next, (set x | x in hwBreakpoints.spine)`next
      ensures Valid() && stub == Unlisted(kind == Sw, i, old(stub))
    {
      hide List.Valid, Shows;
      Apart(swBreakpoints.spine, stub.sw, hwBreakpoints.spine, stub.hw);
      if kind == Sw {
        ShowsWithout(swBreakpoints.spine, stub.sw, true, i);
        swBreakpoints.Remove(e, i);
      } else {
        ShowsWithout(hwBreakpoints.spine, stub.hw, false, i);
        hwBreakpoints.Remove(e, i);
        nrHwBreakpoints := nrHwBreakpoints - 1;
      }
      stub := Unlisted(kind == Sw, i, stub);
    }

    /** kvm_arch_remove_sw_breakpoint; false where its assertion fails. */
    method RestoreInsn(e: Entry, ghost i: nat, addr: nat) returns (ok: bool)
      requires Valid() && Found(e, i, Sw) && addr < |stub.mem|
      modifies this`stub, guestMem
      ensures Valid() && Found(e, i, Sw) && ok == (old(stub).mem[addr] == INT3)
      ensures stub == if ok then old(stub).(mem := old(stub.mem)[addr := e.saved]) else old(stub)
    {
      ok := guestMem[addr] == INT3;
      if ok {
        guestMem[addr] := e.saved;
        stub := stub.(mem := stub.mem[addr := e.saved]);
      }
    }

    /** uhyve_gdb_remove_breakpoint; `aborted` where the assertion on the patched byte
        ends the program. */
    method RemoveBreakpoint(kind: Kind, addr: nat, len: nat) returns (code: int, aborted: bool)
      requires Valid() && (kind == Sw ==> addr < |stub.mem|)
      modifies this`nrHwBreakpoints, this`stub, swBreakpoints, hwBreakpoints, guestMem
      modifies (set x | x in swBreakpoints.spine)`next, (set x | x in hwBreakpoints.spine)`next
      ensures Valid()
      ensures (if aborted then Abort else Reply(stub, code)) == Do(Remove(kind, addr, len), old(stub))
      ensures aborted ==> stub == old(stub)
    {
      hide IndexOf, Valid;
      aborted := false;
      var bp, i := BpListFind(kind, addr, len);
      if bp == null { return -1, false; }
      if kind == Sw {
        var ok := RestoreInsn(bp, i, addr);
        if !ok { return 0, true; }
      }
      BpListRemove(kind, bp, i);
      code := 0;
    }
  }

  /** The entry at the head of its list. */
  function Listed(b: Bp, s: Stub): Stub {
    if b.kind == Sw then s.(sw := [b] + s.sw) else s.(hw := [b] + s.hw)
  }

  /** The first software breakpoint saves its byte and plants int3. */
  function Patch(s: Stub): Stub
    requires s.sw != [] && s.sw[0].addr < |s.mem|
  {
    var b := s.sw[0];
    Stub(s.sw[0 := b.(saved := s.mem[b.addr])], s.hw, s.mem[b.addr := INT3])
  }

  function Unlisted(sw: bool, i: nat, s: Stub): Stub
    requires i < |if sw then s.sw else s.hw|
  {
    if sw then s.(sw := Without(s.sw, i)) else s.(hw := Without(s.hw, i))
  }

  // ---------------------------------------------------------------- theorems

  predicate Active(bps: seq<Bp>, a: nat) {
    exists i :: 0 <= i < |bps| && bps[i].addr == a
  }

  /** Memory is the pristine program with int3 exactly at active addresses. */
  predicate Patched(s: Stub, pristine: seq<byte>) {
    && |s.mem| == |pristine|
    && forall a: nat :: a < |pristine| ==> s.mem[a] == if Active(s.sw, a) then INT3 else pristine[a]
  }

  /** The oldest breakpoint of an address has saved the program's byte. */
  predicate SavedOk(b: Bp, older: seq<Bp>, pristine: seq<byte>) {
    b.kind == Sw && b.addr < |pristine| && b.saved == if Active(older, b.addr) then INT3 else pristine[b.addr]
  }

  predicate AllSaved(bps: seq<Bp>, pristine: seq<byte>) {
    forall i: nat :: i < |bps| ==> SavedOk(bps[i], bps[i + 1..], pristine)
  }

  predicate Keyed(bps: seq<Bp>) {
    forall i, j :: 0 <= i < |bps| && 0 <= j < |bps| && bps[i].addr == bps[j].addr && bps[i].len == bps[j].len ==> i == j
  }

  predicate Sound(s: Stub, pristine: seq<byte>) {
    Patched(s, pristine) && AllSaved(s.sw, pristine) && Keyed(s.sw) && Keyed(s.hw) && |s.hw| <= MAX_HW_BREAKPOINTS
  }

  lemma ActiveCons(b: Bp, bps: seq<Bp>, a: nat)
    ensures Active([b] + bps, a) <==> b.addr == a || Active(bps, a)
  {
    if Active(bps, a) {
      var i :| 0 <= i < |bps| && bps[i].addr == a;
      assert ([b] + bps)[i + 1].addr == a;
    }
    if b.addr == a { assert ([b] + bps)[0].addr == a; }
  }

  lemma KeyedCons(b: Bp, bps: seq<Bp>)
    requires Keyed(bps) && IndexOf(bps, b.addr, b.len) == |bps|
    ensures Keyed([b] + bps)
  {
    forall i, j | 0 <= i <= |bps| && 0 <= j <= |bps| && ([b] + bps)[i].addr == ([b] + bps)[j].addr
                  && ([b] + bps)[i].len == ([b] + bps)[j].len
      ensures i == j
    {
      if i > 0 { assert ([b] + bps)[i] == bps[i - 1]; }
      if j > 0 { assert ([b] + bps)[j] == bps[j - 1]; }
    }
  }

  lemma KeyedWithout(bps: seq<Bp>, k: nat)
    requires Keyed(bps) && k < |bps|
    ensures Keyed(Without(bps, k))
  {
    var w := Without(bps, k);
    forall i, j | 0 <= i < |w| && 0 <= j < |w| && w[i].addr == w[j].addr && w[i].len == w[j].len ensures i == j {
      assert w[i] == bps[if i < k then i else i + 1] && w[j] == bps[if j < k then j else j + 1];
    }
  }

  /** Inserting keeps the stub sound whatever is already there. */
  lemma InsertKeeps(c: Command, s: Stub, pristine: seq<byte>)
    requires c.Insert? && Sound(s, pristine) && (c.kind == Sw ==> c.addr < |s.mem|)
    ensures Do(c, s).Reply? && Sound(Do(c, s).stub, pristine)
  {
    hide IndexOf, Keyed, SavedOk, Active;
    var bps := if c.kind == Sw then s.sw else s.hw;
    if IndexOf(bps, c.addr, c.len) == |bps| {
      if c.kind == Sw {
        var b := Bp(Sw, c.addr, c.len, s.mem[c.addr]);
        KeyedCons(b, s.sw);
        SavedCons(b, s, pristine);
        forall a: nat | a < |pristine| ensures Active([b] + s.sw, a) <==> b.addr == a || Active(s.sw, a) {
          ActiveCons(b, s.sw, a);
        }
      } else {
        KeyedCons(Bp(c.kind, c.addr, c.len, 0), s.hw);
      }
    }
  }

  lemma SavedCons(b: Bp, s: Stub, pristine: seq<byte>)
    requires Patched(s, pristine) && AllSaved(s.sw, pristine)
    requires b.kind == Sw && b.addr < |s.mem| && b.saved == s.mem[b.addr]
    ensures AllSaved([b] + s.sw, pristine)
  {
    hide Active;
    var bps := [b] + s.sw;
    forall i: nat | i < |bps| ensures SavedOk(bps[i], bps[i + 1..], pristine) {
      if i == 0 {
        assert bps[1..] == s.sw;
      } else {
        assert bps[i] == s.sw[i - 1] && bps[i + 1..] == s.sw[i - 1 + 1..];
      }
    }
  }

  /** Entry i holds the program's byte although a newer breakpoint of another length
      still covers the same address. */
  predicate Overlapped(bps: seq<Bp>, i: nat)
    requires i < |bps|
  {
    Active(bps[..i], bps[i].addr) && !Active(bps[i + 1..], bps[i].addr)
  }

  lemma ActiveWithout(bps: seq<Bp>, i: nat, a: nat)
    requires i < |bps|
    ensures Active(Without(bps, i), a) <==> Active(bps[..i], a) || Active(bps[i + 1..], a)
    ensures Active(bps, a) <==> Active(Without(bps, i), a) || bps[i].addr == a
  {
    var w := Without(bps, i);
    if Active(bps[i + 1..], a) {
      var j :| 0 <= j < |bps| - i - 1 && bps[i + 1..][j].addr == a;
      assert w[i + j].addr == a;
    }
    if Active(bps[..i], a) {
      var j :| 0 <= j < i && bps[..i][j].addr == a;
      assert w[j].addr == a;
    }
    if Active(w, a) {
      var j :| 0 <= j < |w| && w[j].addr == a;
      if j < i {
        assert bps[..i][j].addr == a && bps[j].addr == a;
      } else {
        assert bps[i + 1..][j - i].addr == a && bps[j + 1].addr == a;
      }
    }
  }

  /** Removing a breakpoint of a sound stub never trips the assertion, and keeps the
      stub sound exactly unless the entry is overlapped (and the program itself has
      no int3 there). */
  lemma RemoveKeepsIff(c: Command, s: Stub, pristine: seq<byte>)
    requires c.Remove? && Sound(s, pristine) && (c.kind == Sw ==> c.addr < |s.mem|)
    ensures Do(c, s).Reply?
    ensures var i := IndexOf(s.sw, c.addr, c.len);
            Sound(Do(c, s).stub, pristine)
            <==> (c.kind == Sw && i < |s.sw| && Overlapped(s.sw, i) ==> pristine[c.addr] == INT3)
  {
    hide Keyed, SavedOk, Active;
    var i := IndexOf(s.sw, c.addr, c.len);
    if c.kind == Sw && i < |s.sw| {
      assert Active(s.sw, c.addr) by { ActiveWithout(s.sw, i, c.addr); }
      KeyedWithout(s.sw, i);
      if Overlapped(s.sw, i) && pristine[c.addr] != INT3 {
        OverlappedBreaks(s, i, pristine);
      } else {
        RemoveSound(s, i, pristine);
      }
    } else if c.kind != Sw && IndexOf(s.hw, c.addr, c.len) < |s.hw| {
      KeyedWithout(s.hw, IndexOf(s.hw, c.addr, c.len));
    }
  }

  function Removed(s: Stub, i: nat): Stub
    requires i < |s.sw| && s.sw[i].addr < |s.mem|
  {
    Stub(Without(s.sw, i), s.hw, s.mem[s.sw[i].addr := s.sw[i].saved])
  }

  lemma OverlappedBreaks(s: Stub, i: nat, pristine: seq<byte>)
    requires Sound(s, pristine) && i < |s.sw| && Overlapped(s.sw, i) && s.sw[i].addr < |s.mem|
    requires pristine[s.sw[i].addr] != INT3
    ensures !Patched(Removed(s, i), pristine)
  {
    hide Active;
    assert SavedOk(s.sw[i], s.sw[i + 1..], pristine);
    ActiveWithout(s.sw, i, s.sw[i].addr);
  }

  lemma RemoveSound(s: Stub, i: nat, pristine: seq<byte>)
    requires Sound(s, pristine) && i < |s.sw| && s.sw[i].addr < |s.mem|
    requires Overlapped(s.sw, i) ==> pristine[s.sw[i].addr] == INT3
    ensures Patched(Removed(s, i), pristine) && AllSaved(Removed(s, i).sw, pristine)
  {
    hide Active, Keyed;
    var b, w := s.sw[i], Without(s.sw, i);
    assert SavedOk(b, s.sw[i + 1..], pristine);
    forall a: nat | a < |pristine| ensures Removed(s, i).mem[a] == if Active(w, a) then INT3 else pristine[a] {
      ActiveWithout(s.sw, i, a);
    }
    forall j: nat | j < |w| ensures SavedOk(w[j], w[j + 1..], pristine) {
      SavedStays(s.sw, i, j, pristine);
    }
  }

  lemma SavedStays(bps: seq<Bp>, i: nat, j: nat, pristine: seq<byte>)
    requires AllSaved(bps, pristine) && i < |bps| && j < |bps| - 1
    requires Overlapped(bps, i) ==> pristine[bps[i].addr] == INT3
    ensures SavedOk(Without(bps, i)[j], Without(bps, i)[j + 1..], pristine)
  {
    hide Active;
    var w := Without(bps, i);
    if j < i {
      assert SavedOk(bps[j], bps[j + 1..], pristine);
      assert bps[j + 1..][i - j - 1] == bps[i] && w[j + 1..] == Without(bps[j + 1..], i - j - 1);
      ActiveWithout(bps[j + 1..], i - j - 1, bps[j].addr);
      if bps[j].addr == bps[i].addr && !Active(w[j + 1..], bps[j].addr) {
        NewerCovers(bps, i, j);
      }
    } else {
      assert SavedOk(bps[j + 1], bps[j + 2..], pristine);
      assert w[j] == bps[j + 1] && w[j + 1..] == bps[j + 2..];
    }
  }

  lemma NewerCovers(bps: seq<Bp>, i: nat, j: nat)
    requires j < i < |bps| && bps[j].addr == bps[i].addr && !Active(Without(bps, i)[j + 1..], bps[i].addr)
    ensures Overlapped(bps, i)
  {
    assert bps[..i][j].addr == bps[i].addr;
    var older := bps[i + 1..];
    forall k | 0 <= k < |older| ensures older[k].addr != bps[i].addr {
      assert older[k] == Without(bps, i)[j + 1..][i + k - j - 1];
    }
  }

  // -------------------------------------------------------------------- runs

  /** One length per software breakpoint address, all inside guest memory. */
  predicate Consistent(cs: seq<Command>, lens: map<nat, nat>, size: nat) {
    forall i :: 0 <= i < |cs| && cs[i].kind == Sw ==>
      cs[i].addr < size && cs[i].addr in lens && lens[cs[i].addr] == cs[i].len
  }

  predicate Lengths(bps: seq<Bp>, lens: map<nat, nat>) {
    forall i :: 0 <= i < |bps| ==> bps[i].addr in lens && lens[bps[i].addr] == bps[i].len
  }

  /** The stub after a sequence of commands, if no assertion fails. */
  function Run(cs: seq<Command>, s: Stub): Result
    requires forall i :: 0 <= i < |cs| && cs[i].kind == Sw ==> cs[i].addr < |s.mem|
    ensures Run(cs, s).Reply? ==> |Run(cs, s).stub.mem| == |s.mem|
  {
    if cs == [] then Reply(s, 0)
    else
      var r := Run(cs[..|cs| - 1], s);
      if r.Reply? then Do(cs[|cs| - 1], r.stub) else Abort
  }

  /** With one length per address no removal is ever overlapped. */
  lemma NeverOverlapped(bps: seq<Bp>, lens: map<nat, nat>, i: nat)
    requires Keyed(bps) && Lengths(bps, lens) && i < |bps|
    ensures !Overlapped(bps, i)
  {}

  /** Over any sequence of Z and z commands with one length per address the stub
      never aborts, memory is the program with int3 exactly at active addresses, and
      there are at most four hardware breakpoints; once all software breakpoints are
      removed, in any order, memory is the program again. */
  lemma {:induction false} RunSound(cs: seq<Command>, pristine: seq<byte>, lens: map<nat, nat>)
    requires Consistent(cs, lens, |pristine|)
    ensures var r := Run(cs, Stub([], [], pristine));
            r.Reply? && Sound(r.stub, pristine) && Lengths(r.stub.sw, lens)
            && (r.stub.sw == [] ==> r.stub.mem == pristine)
  {
    hide Sound, Lengths, Do;
    if cs == [] {
      Fresh(pristine, lens);
    } else {
      var c, init := cs[|cs| - 1], cs[..|cs| - 1];
      ShorterConsistent(cs, lens, |pristine|);
      RunSound(init, pristine, lens);
      DoSound(c, Run(init, Stub([], [], pristine)).stub, pristine, lens);
    }
    var end := Run(cs, Stub([], [], pristine)).stub;
    if end.sw == [] { Restored(end, pristine); }
  }

  lemma ShorterConsistent(cs: seq<Command>, lens: map<nat, nat>, size: nat)
    requires Consistent(cs, lens, size) && cs != []
    ensures Consistent(cs[..|cs| - 1], lens, size) && Consistent([cs[|cs| - 1]], lens, size)
  {}

  lemma Fresh(pristine: seq<byte>, lens: map<nat, nat>)
    ensures Sound(Stub([], [], pristine), pristine) && Lengths([], lens)
  {}

  lemma SoundParts(s: Stub, pristine: seq<byte>)
    requires Sound(s, pristine)
    ensures |s.mem| == |pristine| && Keyed(s.sw)
  {}

  lemma DoSound(c: Command, s: Stub, pristine: seq<byte>, lens: map<nat, nat>)
    requires Sound(s, pristine) && Lengths(s.sw, lens) && Consistent([c], lens, |pristine|)
    ensures c.kind == Sw ==> c.addr < |s.mem|
    ensures Do(c, s).Reply? && Sound(Do(c, s).stub, pristine) && Lengths(Do(c, s).stub.sw, lens)
  {
    hide Sound, Keyed;
    SoundParts(s, pristine);
    assert [c][0] == c;
    if c.Insert? {
      InsertKeeps(c, s, pristine);
    } else {
      RemoveKeepsIff(c, s, pristine);
      var i := IndexOf(s.sw, c.addr, c.len);
      if i < |s.sw| { NeverOverlapped(s.sw, lens, i); }
    }
  }

  lemma Restored(s: Stub, pristine: seq<byte>)
    requires Sound(s, pristine) && s.sw == []
    ensures s.mem == pristine
  {}

  /** Two lengths at one address, removed oldest first: the second removal aborts. */
  lemma TwoLengthsAbort(pristine: seq<byte>, addr: nat, len0: nat, len1: nat)
    requires addr < |pristine| && pristine[addr] != INT3 && len0 != len1
    ensures Run([Insert(Sw, addr, len0), Insert(Sw, addr, len1), Remove(Sw, addr, len0), Remove(Sw, addr, len1)],
                Stub([], [], pristine)) == Abort
  {
    hide Do;
    var s0, c0, c1 := Stub([], [], pristine), Insert(Sw, addr, len0), Insert(Sw, addr, len1);
    var c2, c3 := Remove(Sw, addr, len0), Remove(Sw, addr, len1);
    TwoLengthsSteps(pristine, addr, len0, len1);
    assert [] + [c0] == [c0] && [c0] + [c1] == [c0, c1];
    assert [c0, c1] + [c2] == [c0, c1, c2] && [c0, c1, c2] + [c3] == [c0, c1, c2, c3];
    RunSnoc([], c0, s0);
    RunSnoc([c0], c1, s0);
    RunSnoc([c0, c1], c2, s0);
    RunSnoc([c0, c1, c2], c3, s0);
  }

  lemma TwoLengthsSteps(pristine: seq<byte>, addr: nat, len0: nat, len1: nat)
    requires addr < |pristine| && pristine[addr] != INT3 && len0 != len1
    ensures var b0, b1, patched := Bp(Sw, addr, len0, pristine[addr]), Bp(Sw, addr, len1, INT3), pristine[addr := INT3];
            && Do(Insert(Sw, addr, len0), Stub([], [], pristine)) == Reply(Stub([b0], [], patched), 0)
            && Do(Insert(Sw, addr, len1), Stub([b0], [], patched)) == Reply(Stub([b1, b0], [], patched), 0)
            && Do(Remove(Sw, addr, len0), Stub([b1, b0], [], patched)) == Reply(Stub([b1], [], pristine), 0)
            && Do(Remove(Sw, addr, len1), Stub([b1], [], pristine)) == Abort
  {
    var b0, b1, patched := Bp(Sw, addr, len0, pristine[addr]), Bp(Sw, addr, len1, INT3), pristine[addr := INT3];
    assert [b1] + [b0] == [b1, b0] && [b1, b0][1..] == [b0] && Without([b1, b0], 1) == [b1];
    assert patched[addr := INT3] == patched && patched[addr := pristine[addr]] == pristine;
    assert IndexOf([b0], addr, len1) == 1 && IndexOf([b1, b0], addr, len0) == 1;
  }

  lemma RunSnoc(cs: seq<Command>, c: Command, s: Stub)
    requires forall i :: 0 <= i < |cs| && cs[i].kind == Sw ==> cs[i].addr < |s.mem|
    requires c.kind == Sw ==> c.addr < |s.mem|
    ensures Run(cs + [c], s) == if Run(cs, s).Reply? then Do(c, Run(cs, s).stub) else Abort
  {
    assert (cs + [c])[..|cs|] == cs;
  }
}
