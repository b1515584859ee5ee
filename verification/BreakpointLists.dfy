/** What the two breakpoint lists hold and what the stub replies, over any sequence of
    commands (uhyve-gdb.c:776-892, 1040-1088). */
module BreakpointLists {
  import opened Bytes
  import opened SList
  import opened Breakpoints

  /** How the debugger names a breakpoint. */
  datatype Key = Key(addr: nat, len: nat)

  function Keys(bps: seq<Bp>): (ks: seq<Key>)
    ensures |ks| == |bps| && forall i :: 0 <= i < |bps| ==> ks[i] == Key(bps[i].addr, bps[i].len)
  {
    seq(|bps|, i requires 0 <= i < |bps| => Key(bps[i].addr, bps[i].len))
  }

  function ListOf(s: Stub, sw: bool): seq<Bp> {
    if sw then s.sw else s.hw
  }

  function Named(c: Command): Key {
    Key(c.addr, c.len)
  }

  predicate Differ(ks: seq<Key>) {
    forall i, j :: 0 <= i < |ks| && 0 <= j < |ks| && ks[i] == ks[j] ==> i == j
  }

  /** The list without one key, in the same order. */
  function Minus(ks: seq<Key>, k: Key): seq<Key> {
    if ks == [] then [] else if ks[0] == k then Minus(ks[1..], k) else [ks[0]] + Minus(ks[1..], k)
  }

  /** One command on the list it names: what the list shows afterwards and the reply. A
      fifth hardware breakpoint and an unknown one are refused, nothing else. */
  predicate Effect(c: Command, before: seq<Key>, after: seq<Key>, code: int) {
    var k := Named(c);
    if c.Insert? then
      if k in before then after == before && code == 0
      else if c.kind != Sw && |before| == 4 then after == before && code == -1
      else after == [k] + before && code == 0
    else
      after == Minus(before, k) && code == if k in before then 0 else -1
  }

  lemma KeyIndex(bps: seq<Bp>, k: Key)
    ensures IndexOf(bps, k.addr, k.len) < |bps| <==> k in Keys(bps)
  {
    var i := IndexOf(bps, k.addr, k.len);
    if i < |bps| { assert Keys(bps)[i] == k; }
  }

  lemma {:induction false} MinusIsWithout(ks: seq<Key>, i: nat)
    requires Differ(ks) && i < |ks|
    ensures Minus(ks, ks[i]) == Without(ks, i)
  {
    if i > 0 {
      assert Differ(ks[1..]);
      MinusIsWithout(ks[1..], i - 1);
      assert Without(ks, i) == [ks[0]] + Without(ks[1..], i - 1);
    } else {
      MinusAbsent(ks[1..], ks[0]);
    }
  }

  lemma {:induction false} MinusAbsent(ks: seq<Key>, k: Key)
    requires k !in ks
    ensures Minus(ks, k) == ks
  {
    if ks != [] { MinusAbsent(ks[1..], k); }
  }

  lemma KeysCons(b: Bp, bps: seq<Bp>)
    ensures Keys([b] + bps) == [Key(b.addr, b.len)] + Keys(bps)
  {}

  lemma KeysWithout(bps: seq<Bp>, i: nat)
    requires i < |bps|
    ensures Keys(Without(bps, i)) == Without(Keys(bps), i)
  {}

  lemma InsertEffect(c: Command, s: Stub)
    requires c.Insert? && (c.kind == Sw ==> c.addr < |s.mem|) && Differ(Keys(ListOf(s, c.kind == Sw)))
    ensures Do(c, s).Reply?
    ensures var t, sw := Do(c, s).stub, c.kind == Sw;
            && Effect(c, Keys(ListOf(s, sw)), Keys(ListOf(t, sw)), Do(c, s).code)
            && ListOf(t, !sw) == ListOf(s, !sw) && (!sw ==> t.mem == s.mem)
            && Differ(Keys(ListOf(t, sw)))
  {
    hide IndexOf, Differ, Keys;
    var sw := c.kind == Sw;
    var bps, after := ListOf(s, sw), ListOf(Do(c, s).stub, sw);
    KeyIndex(bps, Named(c));
    KeyCount(bps);
    if after != bps {
      KeysCons(after[0], bps);
      DifferCons(Named(c), Keys(bps));
    }
  }

  lemma KeyCount(bps: seq<Bp>)
    ensures |Keys(bps)| == |bps| && forall i :: 0 <= i < |bps| ==> Keys(bps)[i] == Key(bps[i].addr, bps[i].len)
  {}

  lemma RemoveEffect(c: Command, s: Stub)
    requires c.Remove? && Differ(Keys(ListOf(s, c.kind == Sw))) && (c.kind == Sw ==> c.addr < |s.mem|)
    requires c.kind == Sw ==> Do(c, s).Reply?
    ensures Do(c, s).Reply?
    ensures var t, sw := Do(c, s).stub, c.kind == Sw;
            && Effect(c, Keys(ListOf(s, sw)), Keys(ListOf(t, sw)), Do(c, s).code)
            && ListOf(t, !sw) == ListOf(s, !sw) && (!sw ==> t.mem == s.mem)
            && Differ(Keys(ListOf(t, sw)))
  {
    hide Differ, Keys, Without, Minus;
    var sw := c.kind == Sw;
    var bps := ListOf(s, sw);
    var i := IndexOf(bps, c.addr, c.len);
    hide IndexOf;
    KeyIndex(bps, Named(c));
    KeyCount(bps);
    if i < |bps| {
      KeysWithout(bps, i);
      MinusIsWithout(Keys(bps), i);
      DifferWithout(Keys(bps), i);
    } else {
      MinusAbsent(Keys(bps), Named(c));
    }
  }

  /** No command touches the other list; none on hardware breakpoints touches memory
      or fails the assertion. */
  lemma CommandEffect(c: Command, s: Stub)
    requires (c.kind == Sw ==> c.addr < |s.mem|) && Differ(Keys(ListOf(s, c.kind == Sw)))
    requires c.kind == Sw && c.Remove? ==> Do(c, s).Reply?
    ensures Do(c, s).Reply?
    ensures var t, sw := Do(c, s).stub, c.kind == Sw;
            && Effect(c, Keys(ListOf(s, sw)), Keys(ListOf(t, sw)), Do(c, s).code)
            && ListOf(t, !sw) == ListOf(s, !sw) && (!sw ==> t.mem == s.mem)
            && Differ(Keys(ListOf(t, sw)))
  {
    hide Do, Keys, Differ, Effect;
    if c.Insert? { InsertEffect(c, s); } else { RemoveEffect(c, s); }
  }

  lemma DifferCons(k: Key, ks: seq<Key>)
    requires Differ(ks) && k !in ks
    ensures Differ([k] + ks)
  {
    forall i, j | 0 <= i <= |ks| && 0 <= j <= |ks| && ([k] + ks)[i] == ([k] + ks)[j] ensures i == j {
      if i > 0 { assert ([k] + ks)[i] == ks[i - 1]; }
      if j > 0 { assert ([k] + ks)[j] == ks[j - 1]; }
    }
  }

  lemma DifferWithout(ks: seq<Key>, k: nat)
    requires Differ(ks) && k < |ks|
    ensures Differ(Without(ks, k))
  {
    var w := Without(ks, k);
    forall i, j | 0 <= i < |w| && 0 <= j < |w| && w[i] == w[j] ensures i == j {
      assert w[i] == ks[if i < k then i else i + 1] && w[j] == ks[if j < k then j else j + 1];
    }
  }

  // -------------------------------------------------------------------- runs

  predicate InRange(cs: seq<Command>, size: nat) {
    forall i :: 0 <= i < |cs| && cs[i].kind == Sw ==> cs[i].addr < size
  }

  /** What a fresh stub has become after the commands. */
  function After(cs: seq<Command>, pristine: seq<byte>): Result
    requires InRange(cs, |pristine|)
    ensures After(cs, pristine).Reply? ==> |After(cs, pristine).stub.mem| == |pristine|
  {
    Run(cs, Stub([], [], pristine))
  }

  /** What a list shows then. */
  function Shown(cs: seq<Command>, pristine: seq<byte>, sw: bool): seq<Key>
    requires InRange(cs, |pristine|) && After(cs, pristine).Reply?
  {
    Keys(ListOf(After(cs, pristine).stub, sw))
  }

  lemma AfterLast(cs: seq<Command>, pristine: seq<byte>)
    requires InRange(cs, |pristine|) && cs != [] && After(cs, pristine).Reply?
    ensures var init, c := cs[..|cs| - 1], cs[|cs| - 1];
            && InRange(init, |pristine|) && After(init, pristine).Reply?
            && (c.kind == Sw ==> c.addr < |pristine|)
            && After(cs, pristine) == Do(c, After(init, pristine).stub)
  {
    hide Do;
  }

  /** The keys a list shows always differ, and a command has its effect. */
  lemma {:induction false} ShownStep(cs: seq<Command>, pristine: seq<byte>, sw: bool)
    requires InRange(cs, |pristine|) && After(cs, pristine).Reply?
    ensures Differ(Shown(cs, pristine, sw))
    ensures cs != [] ==>
              var init, c := cs[..|cs| - 1], cs[|cs| - 1];
              && InRange(init, |pristine|) && After(init, pristine).Reply?
              && if (c.kind == Sw) == sw then
                   Effect(c, Shown(init, pristine, sw), Shown(cs, pristine, sw), After(cs, pristine).code)
                 else Shown(cs, pristine, sw) == Shown(init, pristine, sw)
  {
    if cs != [] {
      hide Do, Run, Effect, Keys;
      var c := cs[|cs| - 1];
      AfterLast(cs, pristine);
      ShownStep(cs[..|cs| - 1], pristine, sw);
      ShownStep(cs[..|cs| - 1], pristine, c.kind == Sw);
      CommandEffect(c, After(cs[..|cs| - 1], pristine).stub);
    }
  }

  /** Command i set key k, which was not set, got reply 0, and no later command on the
      list removed it. */
  predicate SetAt(cs: seq<Command>, pristine: seq<byte>, sw: bool, i: nat, k: Key)
    requires InRange(cs, |pristine|)
    ensures SetAt(cs, pristine, sw, i, k) ==> i < |cs|
  {
    && i < |cs| && cs[i].Insert? && (cs[i].kind == Sw) == sw && Named(cs[i]) == k
    && Accepted(cs[..i], cs[i], pristine, sw)
    && forall j :: i < j < |cs| && cs[j].Remove? && (cs[j].kind == Sw) == sw ==> Named(cs[j]) != k
  }

  /** The reply to an insert of an absent key is 0. */
  predicate Accepted(before: seq<Command>, c: Command, pristine: seq<byte>, sw: bool) {
    && InRange(before, |pristine|) && (c.kind == Sw ==> c.addr < |pristine|)
    && After(before, pristine).Reply? && Named(c) !in Shown(before, pristine, sw)
    && var r := Do(c, After(before, pristine).stub);
       r.Reply? && r.code == 0
  }

  predicate Falling(times: seq<nat>) {
    forall a, b :: 0 <= a < b < |times| ==> times[a] > times[b]
  }

  lemma {:induction false} MinusKeeps(ks: seq<Key>, k: Key, other: Key)
    requires other in ks && other != k
    ensures other in Minus(ks, k)
  {
    if ks[0] != other { MinusKeeps(ks[1..], k, other); }
  }

  lemma SetLater(cs: seq<Command>, pristine: seq<byte>, sw: bool, i: nat, k: Key)
    requires InRange(cs, |pristine|) && cs != [] && i < |cs| - 1
    ensures InRange(cs[..|cs| - 1], |pristine|)
    ensures var c := cs[|cs| - 1];
            SetAt(cs, pristine, sw, i, k)
            <==> SetAt(cs[..|cs| - 1], pristine, sw, i, k) && !(c.Remove? && (c.kind == Sw) == sw && Named(c) == k)
  {
    hide Accepted;
    var init := cs[..|cs| - 1];
    assert init[..i] == cs[..i];
    if SetAt(init, pristine, sw, i, k) {
      forall j | i < j < |cs| - 1 && cs[j].Remove? && (cs[j].kind == Sw) == sw ensures Named(cs[j]) != k {
        assert init[j] == cs[j];
      }
    }
  }

  /** When the keys of a list were set, newest first. */
  predicate Times(cs: seq<Command>, pristine: seq<byte>, sw: bool, times: seq<nat>)
    requires InRange(cs, |pristine|) && After(cs, pristine).Reply?
  {
    && |times| == |Shown(cs, pristine, sw)| && Falling(times)
    && forall a :: 0 <= a < |times| ==> SetAt(cs, pristine, sw, times[a], Shown(cs, pristine, sw)[a])
  }

  lemma FallingWithout(times: seq<nat>, i: nat)
    requires Falling(times) && i < |times|
    ensures |Without(times, i)| == |times| - 1 && Falling(Without(times, i))
  {
    var w := Without(times, i);
    forall a, b | 0 <= a < b < |w| ensures w[a] > w[b] {
      assert w[a] == times[if a < i then a else a + 1] && w[b] == times[if b < i then b else b + 1];
    }
  }

  /** A key that the last command does not remove was set when it was before. */
  lemma SameTime(cs: seq<Command>, pristine: seq<byte>, sw: bool, earlier: seq<nat>, a: nat)
    requires InRange(cs, |pristine|) && cs != []
    requires InRange(cs[..|cs| - 1], |pristine|) && After(cs[..|cs| - 1], pristine).Reply?
    requires Times(cs[..|cs| - 1], pristine, sw, earlier) && a < |earlier|
    ensures earlier[a] < |cs| - 1
    ensures var c, k := cs[|cs| - 1], Shown(cs[..|cs| - 1], pristine, sw)[a];
            !(c.Remove? && (c.kind == Sw) == sw && Named(c) == k) ==> SetAt(cs, pristine, sw, earlier[a], k)
  {
    hide After, Shown, Named, SetAt;
    var k := Shown(cs[..|cs| - 1], pristine, sw)[a];
    assert SetAt(cs[..|cs| - 1], pristine, sw, earlier[a], k);
    SetLater(cs, pristine, sw, earlier[a], k);
  }

  lemma NextTimes(cs: seq<Command>, pristine: seq<byte>, sw: bool, earlier: seq<nat>) returns (times: seq<nat>)
    requires InRange(cs, |pristine|) && After(cs, pristine).Reply? && cs != []
    requires InRange(cs[..|cs| - 1], |pristine|) && After(cs[..|cs| - 1], pristine).Reply?
    requires Times(cs[..|cs| - 1], pristine, sw, earlier)
    ensures Times(cs, pristine, sw, times)
  {
    hide After, Shown, SetAt, Named, InRange, Effect, Without, Minus, Differ;
    var init, c := cs[..|cs| - 1], cs[|cs| - 1];
    var before, after := Shown(init, pristine, sw), Shown(cs, pristine, sw);
    if (c.kind == Sw) == sw && c.Remove? && Named(c) in before {
      var i := RemovedKey(cs, pristine, sw);
      times := Without(earlier, i);
      FallingWithout(earlier, i);
      forall a | 0 <= a < |times| ensures SetAt(cs, pristine, sw, times[a], after[a]) {
        var b := if a < i then a else a + 1;
        SameTime(cs, pristine, sw, earlier, b);
        WithoutAt(earlier, i, a);
        WithoutAt(before, i, a);
      }
    } else if after == before {
      times := earlier;
      forall a | 0 <= a < |times| ensures SetAt(cs, pristine, sw, times[a], after[a]) {
        SameTime(cs, pristine, sw, earlier, a);
        assert before[a] in before;
      }
    } else {
      NothingRemoved(cs, pristine, sw);
      SetNow(cs, pristine, sw);
      times := [|cs| - 1] + earlier;
      forall a | 0 <= a < |times|
        ensures SetAt(cs, pristine, sw, times[a], after[a]) && (a > 0 ==> times[a] < |cs| - 1)
      {
        if a > 0 { SameTime(cs, pristine, sw, earlier, a - 1); }
      }
    }
  }

  lemma WithoutAt<T>(s: seq<T>, i: nat, a: nat)
    requires i < |s| && a < |s| - 1
    ensures |Without(s, i)| == |s| - 1 && Without(s, i)[a] == s[if a < i then a else a + 1]
  {}

  lemma RemovedKey(cs: seq<Command>, pristine: seq<byte>, sw: bool) returns (i: nat)
    requires InRange(cs, |pristine|) && After(cs, pristine).Reply? && cs != []
    requires InRange(cs[..|cs| - 1], |pristine|) && After(cs[..|cs| - 1], pristine).Reply?
    requires cs[|cs| - 1].Remove? && (cs[|cs| - 1].kind == Sw) == sw
    requires Named(cs[|cs| - 1]) in Shown(cs[..|cs| - 1], pristine, sw)
    ensures var before := Shown(cs[..|cs| - 1], pristine, sw);
            && i < |before| && Shown(cs, pristine, sw) == Without(before, i) && |Without(before, i)| == |before| - 1
            && forall a :: 0 <= a < |before| && a != i ==> before[a] != Named(cs[|cs| - 1])
  {
    hide After, Shown, Named, Minus;
    var before, k := Shown(cs[..|cs| - 1], pristine, sw), Named(cs[|cs| - 1]);
    ShownStep(cs, pristine, sw);
    ShownStep(cs[..|cs| - 1], pristine, sw);
    i :| 0 <= i < |before| && before[i] == k;
    MinusIsWithout(before, i);
  }

  /** The list changed, and not by a removal: the last command is an insert on it. */
  lemma NothingRemoved(cs: seq<Command>, pristine: seq<byte>, sw: bool)
    requires InRange(cs, |pristine|) && After(cs, pristine).Reply? && cs != []
    requires InRange(cs[..|cs| - 1], |pristine|) && After(cs[..|cs| - 1], pristine).Reply?
    requires var c, before := cs[|cs| - 1], Shown(cs[..|cs| - 1], pristine, sw);
             Shown(cs, pristine, sw) != before && !((c.kind == Sw) == sw && c.Remove? && Named(c) in before)
    ensures cs[|cs| - 1].Insert? && (cs[|cs| - 1].kind == Sw) == sw
  {
    hide After, Shown, Named, Minus;
    ShownStep(cs, pristine, sw);
    var c, before := cs[|cs| - 1], Shown(cs[..|cs| - 1], pristine, sw);
    if c.Remove? && (c.kind == Sw) == sw { MinusAbsent(before, Named(c)); }
  }

  lemma SetNow(cs: seq<Command>, pristine: seq<byte>, sw: bool)
    requires InRange(cs, |pristine|) && After(cs, pristine).Reply? && cs != []
    requires InRange(cs[..|cs| - 1], |pristine|) && After(cs[..|cs| - 1], pristine).Reply?
    requires cs[|cs| - 1].Insert? && (cs[|cs| - 1].kind == Sw) == sw
    ensures var before := Shown(cs[..|cs| - 1], pristine, sw);
            SetAt(cs, pristine, sw, |cs| - 1, Named(cs[|cs| - 1])) <==> Shown(cs, pristine, sw) != before
    ensures var before := Shown(cs[..|cs| - 1], pristine, sw);
            Shown(cs, pristine, sw) != before ==> Shown(cs, pristine, sw) == [Named(cs[|cs| - 1])] + before
  {
    hide After, Shown, Named, Do;
    ShownStep(cs, pristine, sw);
    AfterLast(cs, pristine);
  }

  /** Over any commands a list shows, newest first, exactly the keys that were set with
      reply 0 and not removed since. */
  lemma {:induction false} ShowsSetKeys(cs: seq<Command>, pristine: seq<byte>, sw: bool) returns (times: seq<nat>)
    requires InRange(cs, |pristine|) && After(cs, pristine).Reply?
    ensures |times| == |Shown(cs, pristine, sw)| && Falling(times)
    ensures forall a :: 0 <= a < |times| ==> SetAt(cs, pristine, sw, times[a], Shown(cs, pristine, sw)[a])
    ensures forall i, k :: SetAt(cs, pristine, sw, i, k) ==> k in Shown(cs, pristine, sw)
  {
    if cs == [] {
      times := [];
    } else {
      hide Do, Run, Keys, After, Shown, SetAt;
      ShownStep(cs, pristine, sw);
      var init := cs[..|cs| - 1];
      var earlier := ShowsSetKeys(init, pristine, sw);
      times := NextTimes(cs, pristine, sw, earlier);
      forall i, k | SetAt(cs, pristine, sw, i, k) ensures k in Shown(cs, pristine, sw) {
        StillShown(cs, pristine, sw, i, k);
      }
    }
  }

  lemma StillShown(cs: seq<Command>, pristine: seq<byte>, sw: bool, i: nat, k: Key)
    requires InRange(cs, |pristine|) && After(cs, pristine).Reply? && SetAt(cs, pristine, sw, i, k)
    requires InRange(cs[..|cs| - 1], |pristine|) && After(cs[..|cs| - 1], pristine).Reply?
    requires SetAt(cs[..|cs| - 1], pristine, sw, i, k) ==> k in Shown(cs[..|cs| - 1], pristine, sw)
    ensures k in Shown(cs, pristine, sw)
  {
    hide After, Shown, Named, Accepted;
    var c, before := cs[|cs| - 1], Shown(cs[..|cs| - 1], pristine, sw);
    ShownStep(cs, pristine, sw);
    if i == |cs| - 1 {
      SetNow(cs, pristine, sw);
    } else {
      SetLater(cs, pristine, sw, i, k);
      if c.Remove? && (c.kind == Sw) == sw { MinusKeeps(before, Named(c), k); }
    }
  }
}
