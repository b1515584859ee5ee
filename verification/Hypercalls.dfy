/** The write and read hypercalls (uhyve.c:393-446): page by page copies between
    a virtually addressed guest buffer and a host file. */
module Hypercalls {
  import opened Pte
  import opened Bytes
  import opened Walker

  /** The translation of address `x`, in the lower half of the address space. */
  function Xlate(m: seq<byte>, x: nat): Walk {
    if x < TWO_63 then WalkTable(m, x, BOOT_PML4, 3) else Miss
  }

  function Reads(m: seq<byte>, x: nat): set<nat> {
    if x < TWO_63 then WalkReads(m, x, BOOT_PML4, 3) else {}
  }

  /** Address `x` is mapped to a byte of guest memory. */
  predicate MappedAt(m: seq<byte>, x: nat) {
    Xlate(m, x).Hit? && Xlate(m, x).pa < |m|
  }

  ghost predicate Mapped(m: seq<byte>, va: nat, n: nat) {
    forall x: nat :: va <= x < va + n ==> MappedAt(m, x)
  }

  /** The bytes of a buffer, each translated on its own. */
  ghost function Gather(m: seq<byte>, va: nat, n: nat): (b: seq<byte>)
    requires Mapped(m, va, n)
    ensures |b| == n && forall j :: 0 <= j < n ==> MappedAt(m, va + j) && b[j] == m[Xlate(m, va + j).pa]
  {
    seq(n, j requires 0 <= j < n => assert MappedAt(m, va + j); m[Xlate(m, va + j).pa])
  }

  /** The host transfers `step` bytes unless its next answer is smaller. */
  function HostReturn(host: seq<nat>, call: nat, step: nat): (r: nat)
    ensures r <= step
  {
    if call < |host| && host[call] < step then host[call] else step
  }

  function Smaller(a: int, b: int): int {
    if a < b then a else b
  }

  /** min(physical_address_end - physical_address, remaining). */
  function StepSize(m: seq<byte>, x: nat, n: nat): nat
    requires x < TWO_63
  {
    var (pa, end) := VirtToPhys(m, x);
    if end < pa then n else if end - pa < n then end - pa else n
  }

  /** A loop step moves forward exactly when the page is mapped; on an unmapped
      page the loop repeats itself. */
  lemma ProgressIffMapped(m: seq<byte>, x: nat, n: nat)
    requires x < TWO_63 && n > 0
    ensures StepSize(m, x, n) > 0 <==> Xlate(m, x).Hit?
  {
    if Xlate(m, x).Hit? {
      HitAhead(m, x);
    }
  }

  lemma HitAhead(m: seq<byte>, x: nat)
    requires Xlate(m, x).Hit?
    ensures Xlate(m, x).pa < Xlate(m, x).end && VirtToPhys(m, x) == (Xlate(m, x).pa, Xlate(m, x).end)
  {
    var h := HitShape(m, x, BOOT_PML4, 3);
    assert x % PageSize(h) < PageSize(h);
    hide WalkTable;
  }

  /** Address `y` behind `x` on the same page. */
  lemma Behind(m: seq<byte>, x: nat, y: nat)
    requires Xlate(m, x).Hit? && x <= y < TWO_63 && y - x < Xlate(m, x).end - Xlate(m, x).pa
    ensures Xlate(m, y) == Hit(Xlate(m, x).pa + (y - x), Xlate(m, x).end)
  {
    hide WalkTable, WalkReads, PageSize;
    SamePage(m, x, y - x, BOOT_PML4, 3);
  }

  /** The part of a buffer inside one page is contiguous in guest memory. */
  lemma Contiguous(m: seq<byte>, va: nat, n: nat)
    requires Mapped(m, va, n) && n > 0
    ensures va < TWO_63 && MappedAt(m, va)
    ensures var pa, step := Xlate(m, va).pa, StepSize(m, va, n);
            && VirtToPhys(m, va).0 == pa && 0 < step <= n && pa + step <= |m|
            && step == Smaller(n, Xlate(m, va).end - pa)
            && forall y: nat :: va <= y < va + step ==> Xlate(m, y) == Hit(pa + (y - va), Xlate(m, va).end)
  {
    hide WalkTable;
    assert MappedAt(m, va);
    HitAhead(m, va);
    var pa, step := Xlate(m, va).pa, StepSize(m, va, n);
    forall y: nat | va <= y < va + step ensures Xlate(m, y) == Hit(pa + (y - va), Xlate(m, va).end) {
      assert MappedAt(m, y);
      Behind(m, va, y);
    }
    assert MappedAt(m, va + step - 1);
  }

  lemma GatherSplit(m: seq<byte>, va: nat, k: nat, n: nat)
    requires Mapped(m, va, k + n)
    ensures Mapped(m, va, k) && Mapped(m, va + k, n)
    ensures Gather(m, va, k + n) == Gather(m, va, k) + Gather(m, va + k, n)
  {
    hide Xlate;
    var all, head, tail := Gather(m, va, k + n), Gather(m, va, k), Gather(m, va + k, n);
    forall j | 0 <= j < k + n ensures all[j] == (head + tail)[j] {
      if j >= k {
        assert va + j == va + k + (j - k);
      }
    }
  }

  lemma MappedPrefix(m: seq<byte>, va: nat, n: nat, k: nat)
    requires Mapped(m, va, n) && k <= n
    ensures Mapped(m, va, k)
  {
    hide MappedAt;
  }

  /** What one host call moves out of guest memory. */
  lemma GatherChunk(m: seq<byte>, va: nat, n: nat, k: nat)
    requires Mapped(m, va, n) && n > 0 && va < TWO_63 && k <= StepSize(m, va, n)
    ensures var pa := VirtToPhys(m, va).0;
            k <= n && pa + k <= |m| && Mapped(m, va, k) && m[pa..pa + k] == Gather(m, va, k)
  {
    hide Xlate, VirtToPhys, StepSize, Gather, Mapped;
    Contiguous(m, va, n);
    var pa := VirtToPhys(m, va).0;
    assert Mapped(m, va, k) by { MappedPrefix(m, va, n, k); }
    forall j | 0 <= j < k ensures m[pa..pa + k][j] == Gather(m, va, k)[j] {
      assert Xlate(m, va + j) == Hit(pa + j, Xlate(m, va).end);
    }
  }

  /** The host's answers so far: call `i` was asked for asked[i] bytes and moved
      moved[i]; only the last call may have been short. */
  ghost predicate Answers(host: seq<nat>, asked: seq<nat>, moved: seq<nat>) {
    && |asked| == |moved|
    && (forall i :: 0 <= i < |moved| ==> moved[i] == HostReturn(host, i, asked[i]))
    && (forall i :: 0 <= i < |moved| - 1 ==> moved[i] == asked[i])
  }

  ghost predicate LastShort(asked: seq<nat>, moved: seq<nat>) {
    |asked| == |moved| > 0 && moved[|moved| - 1] < asked[|moved| - 1]
  }

  function Sum(s: seq<nat>): nat {
    if s == [] then 0 else Sum(s[..|s| - 1]) + s[|s| - 1]
  }

  /** Call i was asked for all that is left of the buffer, up to the end of the page that
      maps its next byte. */
  ghost predicate Ask(m: seq<byte>, buf: nat, len: nat, asked: seq<nat>, moved: seq<nat>, i: nat)
    requires i < |asked| == |moved|
  {
    var x := buf + Sum(moved[..i]);
    && Sum(moved[..i]) < len && Xlate(m, x).Hit?
    && asked[i] == Smaller(len - Sum(moved[..i]), Xlate(m, x).end - Xlate(m, x).pa)
  }

  ghost predicate Asks(m: seq<byte>, buf: nat, len: nat, asked: seq<nat>, moved: seq<nat>) {
    |asked| == |moved| && forall i: nat :: i < |asked| ==> Ask(m, buf, len, asked, moved, i)
  }

  lemma AskSnoc(m: seq<byte>, buf: nat, len: nat, asked: seq<nat>, moved: seq<nat>, step: nat, ret: nat)
    requires Asks(m, buf, len, asked, moved) && Sum(moved) < len && Xlate(m, buf + Sum(moved)).Hit?
    requires var w := Xlate(m, buf + Sum(moved)); step == Smaller(len - Sum(moved), w.end - w.pa)
    ensures Asks(m, buf, len, asked + [step], moved + [ret])
  {
    hide Xlate, Sum;
    forall i: nat | i < |asked| + 1 ensures Ask(m, buf, len, asked + [step], moved + [ret], i) {
      if i < |asked| {
        assert Ask(m, buf, len, asked, moved, i);
        assert (moved + [ret])[..i] == moved[..i];
      } else {
        assert (moved + [ret])[..i] == moved;
      }
    }
  }

  /** A host answer below what it was asked for ends the transfer with exactly that. */
  lemma ShortAnswerEnds(host: seq<nat>, asked: seq<nat>, moved: seq<nat>, i: nat)
    requires Answers(host, asked, moved) && i < |asked| && i < |host| && host[i] < asked[i]
    ensures i == |asked| - 1 && Sum(moved) == Sum(moved[..i]) + host[i]
  {
    assert moved[i] == HostReturn(host, i, asked[i]);
  }

  lemma AnswerSnoc(host: seq<nat>, asked: seq<nat>, moved: seq<nat>, step: nat)
    requires Answers(host, asked, moved) && !LastShort(asked, moved)
    ensures var ret := HostReturn(host, |moved|, step);
            && Answers(host, asked + [step], moved + [ret])
            && Sum(moved + [ret]) == Sum(moved) + ret
            && (LastShort(asked + [step], moved + [ret]) <==> ret < step)
  {
    var ret := HostReturn(host, |moved|, step);
    assert (moved + [ret])[..|moved|] == moved;
  }

  /** UHYVE_PORT_WRITE: `out` is what the host received, `written` the length
      reported back to the guest. It is the whole buffer, or the prefix up to and
      including the host's first short answer. */
  method WriteHypercall(mem: array<byte>, buf: U64, len: nat, host: seq<nat>)
    returns (written: nat, out: seq<byte>, ghost asked: seq<nat>, ghost moved: seq<nat>)
    requires Mapped(mem[..], buf, len)
    ensures written <= len && Mapped(mem[..], buf, written)
    ensures out == Gather(mem[..], buf, written)
    ensures Asks(mem[..], buf, len, asked, moved) && Answers(host, asked, moved) && written == Sum(moved)
    ensures written < len ==> LastShort(asked, moved)
  {
    hide Xlate, VirtToPhys, StepSize, Gather, Sum, Answers, LastShort, Asks, Smaller;
    ghost var m := mem[..];
    var toWrite, call := len, 0;
    written, out, asked, moved := 0, [], [], [];
    NoAnswers(host);
    NoAsks(m, buf, len);
    while toWrite > 0
      invariant mem[..] == m && written + toWrite == len && call == |moved| == |asked|
      invariant Mapped(m, buf, written)
      invariant out == Gather(m, buf, written) && Asks(m, buf, len, asked, moved)
      invariant Answers(host, asked, moved) && !LastShort(asked, moved) && written == Sum(moved)
      decreases toWrite
    {
      var va := buf + written;
      GatherSplit(m, buf, written, toWrite);
      Contiguous(m, va, toWrite);
      var pa := VirtToPhys(mem[..], va).0;
      var step := StepSize(mem[..], va, toWrite);
      var ret := HostReturn(host, call, step);
      GatherChunk(m, va, toWrite, ret);
      GatherSplit(m, buf, written, ret);
      AnswerSnoc(host, asked, moved, step);
      AskSnoc(m, buf, len, asked, moved, step, ret);
      out := out + mem[pa..pa + ret];
      asked, moved := asked + [step], moved + [ret];
      written, call := written + ret, call + 1;
      if ret < step {
        return;
      }
      toWrite := toWrite - step;
    }
  }

  lemma NoAsks(m: seq<byte>, buf: nat, len: nat)
    ensures Asks(m, buf, len, [], [])
  {}

  lemma NoAnswers(host: seq<nat>)
    ensures Answers(host, [], []) && !LastShort([], []) && Sum([]) == 0
  {
  }

  // ------------------------------------------------------------ reading

  /** Copying `data` into the buffer one byte at a time, translating each byte's
      address in the memory of that moment. */
  ghost function Scatter(m: seq<byte>, va: nat, data: seq<byte>): (n: seq<byte>)
    ensures |n| == |m|
    decreases |data|
  {
    if data == [] || !MappedAt(m, va) then m
    else Scatter(m[Xlate(m, va).pa := data[0]], va + 1, data[1..])
  }

  /** The buffer is mapped and none of its bytes lies in a table entry that
      translates the buffer. */
  ghost predicate Writable(m: seq<byte>, va: nat, n: nat) {
    && Mapped(m, va, n)
    && forall x: nat, y: nat, a :: va <= x < va + n && va <= y < va + n && a in Reads(m, y) ==> Apart(Xlate(m, x), a)
  }

  predicate Apart(w: Walk, a: nat) {
    w.Hit? ==> w.pa < a || a + 8 <= w.pa
  }

  /** Two memories translate the buffer alike. */
  ghost predicate SameWalks(m: seq<byte>, t: seq<byte>, va: nat, n: nat) {
    |m| == |t| && forall x: nat :: va <= x < va + n ==> Xlate(t, x) == Xlate(m, x) && Reads(t, x) == Reads(m, x)
  }

  /** Storing a byte inside the buffer changes no translation of the buffer. */
  lemma StoreKeeps(m: seq<byte>, va: nat, n: nat, y: nat, b: byte)
    requires Writable(m, va, n) && va <= y < va + n
    ensures MappedAt(m, y)
    ensures SameWalks(m, m[Xlate(m, y).pa := b], va, n) && Writable(m[Xlate(m, y).pa := b], va, n)
  {
    hide WalkTable, WalkReads, Load64;
    assert MappedAt(m, y);
    var p := Xlate(m, y).pa;
    var t := m[p := b];
    forall x: nat | va <= x < va + n ensures Xlate(t, x) == Xlate(m, x) && Reads(t, x) == Reads(m, x) {
      assert MappedAt(m, x);
      forall a | a in Reads(m, x) ensures Load64(t, a) == Load64(m, a) {
        assert Apart(Xlate(m, y), a);
        LoadAround(m, p, b, a);
      }
      WalkFramed(m, t, x, BOOT_PML4, 3);
    }
    forall x: nat | va <= x < va + n ensures MappedAt(t, x) {
      assert MappedAt(m, x);
    }
  }

  lemma LoadAround(m: seq<byte>, p: nat, b: byte, a: nat)
    requires p < |m| && (p < a || a + 8 <= p)
    ensures Load64(m[p := b], a) == Load64(m, a)
  {
    if a + 8 <= |m| {
      assert m[p := b][a..a + 8] == m[a..a + 8];
    }
  }

  lemma {:induction false} ScatterKeeps(m: seq<byte>, va: nat, n: nat, y: nat, data: seq<byte>)
    requires Writable(m, va, n) && va <= y && y + |data| <= va + n
    ensures SameWalks(m, Scatter(m, y, data), va, n) && Writable(Scatter(m, y, data), va, n)
    decreases |data|
  {
    hide Xlate, Writable;
    if data != [] {
      StoreKeeps(m, va, n, y, data[0]);
      ScatterKeeps(m[Xlate(m, y).pa := data[0]], va, n, y + 1, data[1..]);
    }
  }

  lemma {:induction false} ScatterConcat(m: seq<byte>, va: nat, n: nat, y: nat, a: seq<byte>, b: seq<byte>)
    requires Writable(m, va, n) && va <= y && y + |a| + |b| <= va + n
    ensures Scatter(m, y, a + b) == Scatter(Scatter(m, y, a), y + |a|, b)
    decreases |a|
  {
    hide Xlate, Writable;
    if a == [] {
      assert a + b == b;
    } else {
      StoreKeeps(m, va, n, y, a[0]);
      assert (a + b)[1..] == a[1..] + b;
      ScatterConcat(m[Xlate(m, y).pa := a[0]], va, n, y + 1, a[1..], b);
    }
  }

  /** Inside one page, byte by byte copying is one contiguous store. */
  lemma {:induction false} ScatterChunk(m: seq<byte>, va: nat, n: nat, y: nat, data: seq<byte>, pa: nat)
    requires Writable(m, va, n) && va <= y && y + |data| <= va + n && pa + |data| <= |m|
    requires forall x: nat :: y <= x < y + |data| ==> Xlate(m, x).Hit? && Xlate(m, x).pa == pa + (x - y)
    ensures Scatter(m, y, data) == m[..pa] + data + m[pa + |data|..]
    decreases |data|
  {
    hide Xlate, Writable;
    if data != [] {
      assert MappedAt(m, y) && Xlate(m, y).pa == pa;
      StoreKeeps(m, va, n, y, data[0]);
      var t := m[pa := data[0]];
      ScatterChunk(t, va, n, y + 1, data[1..], pa + 1);
      assert t[..pa + 1] + data[1..] + t[pa + 1 + |data[1..]|..] == m[..pa] + data + m[pa + |data|..];
    } else {
      assert m[..pa] + data + m[pa..] == m;
    }
  }

  /** The host's read() into guest memory. */
  method StoreBytes(mem: array<byte>, pa: nat, data: seq<byte>)
    requires pa + |data| <= mem.Length
    modifies mem
    ensures mem[..] == old(mem[..pa]) + data + old(mem[pa + |data|..])
  {
    forall k | 0 <= k < |data| {
      mem[pa + k] := data[k];
    }
  }

  /** UHYVE_PORT_READ: the host supplies `input`; `read` bytes of it end up in the
      buffer and `read` is reported back to the guest. */
  method ReadHypercall(mem: array<byte>, buf: U64, len: nat, host: seq<nat>, input: seq<byte>)
    returns (read: nat, ghost asked: seq<nat>, ghost moved: seq<nat>)
    requires Writable(mem[..], buf, len) && len <= |input|
    modifies mem
    ensures read <= len
    ensures mem[..] == Scatter(old(mem[..]), buf, input[..read])
    ensures Asks(old(mem[..]), buf, len, asked, moved) && Answers(host, asked, moved) && read == Sum(moved)
    ensures read < len ==> LastShort(asked, moved)
  {
    hide Xlate, VirtToPhys, StepSize, Sum, Answers, LastShort, Writable, Scatter, Asks, Smaller, SameWalks;
    ghost var m := mem[..];
    var toRead, call := len, 0;
    read, asked, moved := 0, [], [];
    NoAnswers(host);
    NoAsks(m, buf, len);
    assert mem[..] == Scatter(m, buf, input[..0]) by { ScatterNothing(m, buf); }
    while toRead > 0
      invariant read + toRead == len && call == |moved| == |asked|
      invariant Writable(mem[..], buf, len)
      invariant mem[..] == Scatter(m, buf, input[..read]) && Asks(m, buf, len, asked, moved)
      invariant Answers(host, asked, moved) && !LastShort(asked, moved) && read == Sum(moved)
      decreases toRead
    {
      ghost var t := mem[..];
      var va := buf + read;
      assert Mapped(t, va, toRead) by { WritableTail(t, buf, len, read); }
      Contiguous(t, va, toRead);
      var pa := VirtToPhys(mem[..], va).0;
      var step := StepSize(mem[..], va, toRead);
      var ret := HostReturn(host, call, step);
      var data := input[read..read + ret];
      ScatterChunk(t, buf, len, va, data, pa);
      ScatterKeeps(t, buf, len, va, data);
      ScatterConcat(m, buf, len, buf, input[..read], data);
      assert input[..read] + data == input[..read + ret];
      AnswerSnoc(host, asked, moved, step);
      ScatterKeeps(m, buf, len, buf, input[..read]);
      SameXlate(m, t, buf, len, va);
      AskSnoc(m, buf, len, asked, moved, step, ret);
      StoreBytes(mem, pa, data);
      asked, moved := asked + [step], moved + [ret];
      read, call := read + ret, call + 1;
      if ret < step {
        return;
      }
      toRead := toRead - step;
    }
  }

  lemma SameXlate(m: seq<byte>, t: seq<byte>, va: nat, n: nat, x: nat)
    requires SameWalks(m, t, va, n) && va <= x < va + n
    ensures Xlate(t, x) == Xlate(m, x)
  {
    hide Xlate, Reads;
  }

  lemma ScatterNothing(m: seq<byte>, va: nat)
    ensures Scatter(m, va, []) == m
  {
  }

  lemma WritableTail(m: seq<byte>, va: nat, n: nat, k: nat)
    requires Writable(m, va, n) && k <= n
    ensures Mapped(m, va + k, n - k)
  {
  }
}
