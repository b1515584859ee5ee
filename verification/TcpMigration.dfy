/** Migration over one TCP connection: sender and receiver of the regions, the
    memory, the CPU states and the clock, under any fragmentation
    (uhyve-migration.c:267-347, uhyve-migration-tcp.c:50-97, uhyve-x86_64.c:927-1030). */
module TcpMigration {
  import opened Pte
  import opened Bytes
  import opened FreeList
  import opened Regions

  /** The connection: bytes sent and not yet received. */
  class Socket {
    var stream: seq<byte>

    constructor ()
      ensures stream == []
    {
      stream := [];
    }

    /** send(2): takes some nonempty part. */
    method Send(data: seq<byte>) returns (n: nat)
      requires data != []
      modifies this
      ensures 0 < n <= |data| && stream == old(stream) + data[..n]
    {
      n :| 0 < n <= |data|;
      stream := stream + data[..n];
    }

    /** recv(2): yields some nonempty part of what is there. */
    method Recv(buffer: array<byte>, base: nat, max: nat) returns (n: nat)
      requires 0 < max && base + max <= buffer.Length && stream != []
      modifies this, buffer
      ensures 0 < n <= max && n <= |old(stream)| && stream == old(stream)[n..]
      ensures buffer[..] == Spliced(old(buffer[..]), base, old(stream)[..n])
    {
      n :| 0 < n <= max && n <= |stream|;
      forall k | 0 <= k < n {
        buffer[base + k] := stream[k];
      }
      stream := stream[n..];
    }

    method SendData(data: seq<byte>) returns (sent: nat)
      modifies this
      ensures stream == old(stream) + data && sent == |data|
    {
      sent := 0;
      while sent < |data|
        invariant sent <= |data| && stream == old(stream) + data[..sent]
      {
        var n := Send(data[sent..]);
        assert data[..sent] + data[sent..][..n] == data[..sent + n];
        sent := sent + n;
      }
      assert data[..sent] == data;
    }

    method RecvData(buffer: array<byte>, base: nat, length: nat) returns (received: nat)
      requires base + length <= buffer.Length && length <= |stream|
      modifies this, buffer
      ensures received == length && stream == old(stream)[length..]
      ensures buffer[..] == Spliced(old(buffer[..]), base, old(stream)[..length])
    {
      hide Spliced;
      received := 0;
      ghost var was, all, got := buffer[..], stream, [];
      SplicedNothing(was, base);
      while received < length
        invariant received == |got| <= length && all == got + stream
        invariant buffer[..] == Spliced(was, base, got)
      {
        ghost var s := stream;
        var n := Recv(buffer, base + received, length - received);
        SplicedTwice(was, base, got, s[..n]);
        got := got + s[..n];
        received := received + n;
      }
      assert got == all[..length];
    }
  }

  /** `data` written over m from `base` on. */
  function Spliced(m: seq<byte>, base: nat, data: seq<byte>): (r: seq<byte>)
    requires base + |data| <= |m|
    ensures |r| == |m|
  {
    m[..base] + data + m[base + |data|..]
  }

  lemma SplicedTwice(m: seq<byte>, base: nat, a: seq<byte>, b: seq<byte>)
    requires base + |a| + |b| <= |m|
    ensures Spliced(Spliced(m, base, a), base + |a|, b) == Spliced(m, base, a + b)
  {}

  lemma SplicedNothing(m: seq<byte>, base: nat)
    requires base <= |m|
    ensures Spliced(m, base, []) == m
  {}

  datatype MigType = Cold | Live

  /** Where and what the sender takes its data from: `phys` are the
      guest-physical regions, `mapped` the allocated ones. */
  datatype Source = Source(kind: MigType, phys: seq<Chunk>, mapped: seq<Chunk>,
                           mem: seq<byte>, cpus: seq<byte>, clock: seq<byte>)

  /** The regions send_mem_regions announces. */
  function Announced(s: Source): seq<Chunk> {
    Registered(s.kind == Live, s.phys, s.mapped)
  }

  /** The regions precopy_phase selects; it has no fallback for an empty list. */
  function Transferred(s: Source): seq<Chunk> {
    if s.kind == Live then s.phys else s.mapped
  }

  predicate Fits(cs: seq<Chunk>, size: nat) {
    forall i :: 0 <= i < |cs| ==> cs[i].ptr + cs[i].size <= size
  }

  function Total(cs: seq<Chunk>): nat {
    if cs == [] then 0 else cs[0].size + Total(cs[1..])
  }

  function EncodeChunks(cs: seq<Chunk>): (b: seq<byte>)
    ensures |b| == 16 * |cs|
  {
    if cs == [] then [] else Encode(cs[0].size, 8) + Encode(cs[0].ptr, 8) + EncodeChunks(cs[1..])
  }

  function DecodeChunks(b: seq<byte>, n: nat): (cs: seq<Chunk>)
    requires |b| == 16 * n
    ensures |cs| == n
  {
    if n == 0 then [] else [Chunk(DecodeBytes(b[8..16]), DecodeBytes(b[..8]))] + DecodeChunks(b[16..], n - 1)
  }

  function Contents(cs: seq<Chunk>, mem: seq<byte>): (b: seq<byte>)
    requires Fits(cs, |mem|)
    ensures |b| == Total(cs)
  {
    if cs == [] then [] else mem[cs[0].ptr..cs[0].ptr + cs[0].size] + Contents(cs[1..], mem)
  }

  /** What the sender puts on the wire. */
  function Wire(s: Source): seq<byte>
    requires Fits(Transferred(s), |s.mem|)
  {
    Encode(|Announced(s)|, 8) + EncodeChunks(Announced(s)) + Contents(Transferred(s), s.mem) + s.cpus + s.clock
  }

  datatype Outcome = Hang | Stray | Loaded(mem: seq<byte>, cpus: seq<byte>, clock: seq<byte>, rest: seq<byte>)

  function Filled(mem: seq<byte>, cs: seq<Chunk>, data: seq<byte>): (r: seq<byte>)
    requires Fits(cs, |mem|) && |data| == Total(cs)
    ensures |r| == |mem|
    decreases |cs|
  {
    if cs == [] then mem
    else Filled(Spliced(mem, cs[0].ptr, data[..cs[0].size]), cs[1..], data[cs[0].size..])
  }

  /** What a receiver with `cpu` bytes of CPU states and `clock` bytes of clock data
      makes of a finished stream: it waits forever for missing bytes. */
  function Received(stream: seq<byte>, mem: seq<byte>, cpu: nat, clock: nat): Outcome {
    if |stream| < 8 then Hang
    else
      var n, rest := DecodeBytes(stream[..8]), stream[8..];
      if |rest| < 16 * n then Hang else LoadedBody(rest[16 * n..], DecodeChunks(rest[..16 * n], n), mem, cpu, clock)
  }

  function LoadedBody(body: seq<byte>, cs: seq<Chunk>, mem: seq<byte>, cpu: nat, clock: nat): Outcome {
    if !Fits(cs, |mem|) then Stray
    else if |body| < Total(cs) + cpu + clock then Hang
    else
      var states := body[Total(cs)..];
      var time := states[cpu..];
      Loaded(Filled(mem, cs, body[..Total(cs)]), states[..cpu], time[..clock], time[clock..])
  }

  // ----------------------------------------------------------------- methods

  method SendMemRegions(sock: Socket, s: Source)
    modifies sock
    ensures sock.stream == old(sock.stream) + Encode(|Announced(s)|, 8) + EncodeChunks(Announced(s))
  {
    var regions := if s.kind == Live || |s.mapped| == 0 then s.phys else s.mapped;
    var _ := sock.SendData(Encode(|regions|, 8));
    var _ := sock.SendData(EncodeChunks(regions));
  }

  /** stop_and_copy_phase sends region after region. */
  method StopAndCopy(sock: Socket, regions: seq<Chunk>, mem: seq<byte>)
    requires Fits(regions, |mem|)
    modifies sock
    ensures sock.stream == old(sock.stream) + Contents(regions, mem)
  {
    for i := 0 to |regions|
      invariant sock.stream + Contents(regions[i..], mem) == old(sock.stream) + Contents(regions, mem)
    {
      var _ := sock.SendData(mem[regions[i].ptr..regions[i].ptr + regions[i].size]);
      assert regions[i..][1..] == regions[i + 1..];
    }
  }

  method SendMigration(sock: Socket, s: Source)
    requires Fits(Transferred(s), |s.mem|)
    modifies sock
    ensures sock.stream == old(sock.stream) + Wire(s)
  {
    hide Encode, EncodeChunks, Contents, Fits;
    SendMemRegions(sock, s);
    var transferred := if s.kind == Live then s.phys else s.mapped;
    StopAndCopy(sock, transferred, s.mem);
    var _ := sock.SendData(s.cpus);
    var _ := sock.SendData(s.clock);
  }

  /** A fresh buffer filled from the stream. */
  method RecvBytes(sock: Socket, length: nat) returns (data: seq<byte>)
    requires length <= |sock.stream|
    modifies sock
    ensures data == old(sock.stream)[..length] && sock.stream == old(sock.stream)[length..]
  {
    var buffer := new byte[length](_ => 0);
    var _ := sock.RecvData(buffer, 0, length);
    data := buffer[..];
  }

  method RecvGuestMem(sock: Socket, cs: seq<Chunk>, mem: array<byte>)
    requires Fits(cs, mem.Length) && Total(cs) <= |sock.stream|
    modifies sock, mem
    ensures mem[..] == Filled(old(mem[..]), cs, old(sock.stream)[..Total(cs)])
    ensures sock.stream == old(sock.stream)[Total(cs)..]
  {
    hide Spliced;
    ghost var total := Total(cs);
    for i := 0 to |cs|
      invariant Total(cs[i..]) <= |sock.stream| && Total(cs[i..]) <= total
      invariant sock.stream == old(sock.stream)[total - Total(cs[i..])..]
      invariant Filled(mem[..], cs[i..], sock.stream[..Total(cs[i..])])
                == Filled(old(mem[..]), cs, old(sock.stream)[..total])
    {
      ghost var data := sock.stream[..Total(cs[i..])];
      ghost var before := sock.stream;
      var _ := sock.RecvData(mem, cs[i].ptr, cs[i].size);
      assert cs[i..][1..] == cs[i + 1..];
      assert data[..cs[i].size] == before[..cs[i].size];
      assert data[cs[i].size..] == sock.stream[..Total(cs[i + 1..])];
    }
  }

  /** load_migration_data: reads exactly what the specification says, for every way
      the stream is cut into pieces. */
  method LoadMigrationData(sock: Socket, mem: array<byte>, cpu: nat, clock: nat)
    returns (cpus: seq<byte>, time: seq<byte>)
    requires Received(sock.stream, mem[..], cpu, clock).Loaded?
    modifies sock, mem
    ensures Loaded(mem[..], cpus, time, sock.stream) == Received(old(sock.stream), old(mem[..]), cpu, clock)
  {
    hide DecodeChunks, DecodeBytes, LoadedBody;
    var header := RecvBytes(sock, 8);
    var count := DecodeBytes(header);
    var info := RecvBytes(sock, 16 * count);
    cpus, time := LoadBody(sock, DecodeChunks(info, count), mem, cpu, clock);
  }

  /** Its part after recv_mem_regions. */
  method LoadBody(sock: Socket, cs: seq<Chunk>, mem: array<byte>, cpu: nat, clock: nat)
    returns (cpus: seq<byte>, time: seq<byte>)
    requires LoadedBody(sock.stream, cs, mem[..], cpu, clock).Loaded?
    modifies sock, mem
    ensures Loaded(mem[..], cpus, time, sock.stream) == LoadedBody(old(sock.stream), cs, old(mem[..]), cpu, clock)
  {
    hide Filled, Total, Fits;
    RecvGuestMem(sock, cs, mem);
    cpus := RecvBytes(sock, cpu);
    time := RecvBytes(sock, clock);
  }

  // ---------------------------------------------------------------- theorems

  predicate Covered(cs: seq<Chunk>, x: nat) {
    exists i :: 0 <= i < |cs| && cs[i].ptr <= x < cs[i].ptr + cs[i].size
  }

  predicate Encodable(cs: seq<Chunk>) {
    |cs| < TWO_64 && forall i :: 0 <= i < |cs| ==> cs[i].ptr < TWO_64 && cs[i].size < TWO_64
  }

  lemma {:induction false} ChunksRoundTrip(cs: seq<Chunk>)
    requires Encodable(cs)
    ensures DecodeChunks(EncodeChunks(cs), |cs|) == cs
  {
    if cs != [] {
      var b := EncodeChunks(cs);
      assert b[..8] == Encode(cs[0].size, 8) && b[8..16] == Encode(cs[0].ptr, 8) && b[16..] == EncodeChunks(cs[1..]);
      Pow8();
      DecodeEncode(cs[0].size, 8);
      DecodeEncode(cs[0].ptr, 8);
      ChunksRoundTrip(cs[1..]);
    }
  }

  /** The announcement of region i is its size and then its address, eight bytes each. */
  lemma {:induction false} RegionLayout(cs: seq<Chunk>, i: nat)
    requires i < |cs|
    ensures EncodeChunks(cs)[16 * i..16 * i + 8] == Encode(cs[i].size, 8)
    ensures EncodeChunks(cs)[16 * i + 8..16 * i + 16] == Encode(cs[i].ptr, 8)
  {
    var b := EncodeChunks(cs);
    if i == 0 {
      assert b[..8] == Encode(cs[0].size, 8) && b[8..16] == Encode(cs[0].ptr, 8);
    } else {
      var rest := EncodeChunks(cs[1..]);
      assert b[16..] == rest;
      RegionLayout(cs[1..], i - 1);
      assert b[16 * i..16 * i + 8] == rest[16 * (i - 1)..16 * (i - 1) + 8];
      assert b[16 * i + 8..16 * i + 16] == rest[16 * (i - 1) + 8..16 * (i - 1) + 16];
    }
  }

  /** Regions received into equally large memory hold the sender's bytes, and no
      other byte changes. */
  lemma {:induction false} FilledFrom(dest: seq<byte>, cs: seq<Chunk>, src: seq<byte>, x: nat)
    requires Fits(cs, |src|) && |src| == |dest| && x < |dest|
    ensures Filled(dest, cs, Contents(cs, src))[x] == if Covered(cs, x) then src[x] else dest[x]
    decreases |cs|
  {
    if cs != [] {
      var c, data := cs[0], Contents(cs, src);
      var next := Spliced(dest, c.ptr, data[..c.size]);
      assert data[c.size..] == Contents(cs[1..], src) && data[..c.size] == src[c.ptr..c.ptr + c.size];
      FilledFrom(next, cs[1..], src, x);
      assert Covered(cs, x) <==> c.ptr <= x < c.ptr + c.size || Covered(cs[1..], x);
    }
  }

  lemma SplitAt(a: seq<byte>, b: seq<byte>)
    ensures (a + b)[..|a|] == a && (a + b)[|a|..] == b
  {}

  lemma Associate(a: seq<byte>, b: seq<byte>, c: seq<byte>)
    ensures a + b + c == a + (b + c)
  {}

  /** The receiver finds the announced regions in front of whatever follows. */
  lemma HeaderRead(cs: seq<Chunk>, body: seq<byte>, mem: seq<byte>, cpu: nat, clock: nat)
    requires Encodable(cs)
    ensures Received(Encode(|cs|, 8) + EncodeChunks(cs) + body, mem, cpu, clock)
            == LoadedBody(body, cs, mem, cpu, clock)
  {
    hide DecodeChunks, EncodeChunks, DecodeBytes, Encode, LoadedBody;
    var header, info := Encode(|cs|, 8), EncodeChunks(cs);
    Associate(header, info, body);
    SplitAt(header, info + body);
    SplitAt(info, body);
    Pow8();
    DecodeEncode(|cs|, 8);
    ChunksRoundTrip(cs);
  }

  /** Sender and receiver agree, the stream is consumed to the last byte, and the
      destination holds the source's memory on every announced region, its CPU
      states and its clock: exactly unless a cold migration finds no allocated region
      and announces guest memory that it then does not send. In that case the
      receiver waits forever. */
  lemma AgreesIffSent(s: Source, dest: seq<byte>)
    requires Fits(s.phys, |s.mem|) && Fits(s.mapped, |s.mem|) && Encodable(s.phys) && Encodable(s.mapped)
    requires |dest| == |s.mem|
    ensures var r := Received(Wire(s), dest, |s.cpus|, |s.clock|);
            if s.kind == Live || s.mapped != [] || Total(s.phys) == 0 then
              && r.Loaded? && r.cpus == s.cpus && r.clock == s.clock && r.rest == [] && |r.mem| == |dest|
              && forall x: nat :: x < |dest| ==> r.mem[x] == if Covered(Announced(s), x) then s.mem[x] else dest[x]
            else r == Hang
  {
    hide Filled, Contents, EncodeChunks, Encode, Covered, Fits, Encodable, Received;
    var cs, sent := Announced(s), Contents(Transferred(s), s.mem);
    ReceivedBody(cs, sent, s.cpus, s.clock, dest);
    assert Wire(s) == Encode(|cs|, 8) + EncodeChunks(cs) + (sent + s.cpus + s.clock);
    if s.kind == Live || s.mapped != [] || Total(s.phys) == 0 {
      if s.kind == Cold && s.mapped == [] {
        NothingToSend(s.phys, s.mem);
      }
      assert sent == Contents(cs, s.mem);
      forall x: nat | x < |dest|
        ensures Filled(dest, cs, sent)[x] == if Covered(cs, x) then s.mem[x] else dest[x]
      {
        FilledFrom(dest, cs, s.mem, x);
      }
    } else {
      NothingFrom(s.mem);
    }
  }

  /** Fewer bytes than announced: wait forever. Exactly as many: load them all. */
  lemma ReceivedBody(cs: seq<Chunk>, sent: seq<byte>, cpus: seq<byte>, clock: seq<byte>, dest: seq<byte>)
    requires Encodable(cs) && Fits(cs, |dest|) && |sent| <= Total(cs)
    ensures Received(Encode(|cs|, 8) + EncodeChunks(cs) + (sent + cpus + clock), dest, |cpus|, |clock|)
            == if |sent| == Total(cs) then Loaded(Filled(dest, cs, sent), cpus, clock, []) else Hang
  {
    hide Filled, EncodeChunks, Encode, Fits, Encodable, Total, Received;
    HeaderRead(cs, sent + cpus + clock, dest, |cpus|, |clock|);
    if |sent| == Total(cs) {
      Associate(sent, cpus, clock);
      SplitAt(sent, cpus + clock);
      SplitAt(cpus, clock);
      SplitAt(clock, []);
    }
  }

  lemma NothingFrom(mem: seq<byte>)
    ensures Contents([], mem) == []
  {}

  lemma NothingToSend(cs: seq<Chunk>, mem: seq<byte>)
    requires Fits(cs, |mem|) && Total(cs) == 0
    ensures Contents(cs, mem) == [] && Contents([], mem) == []
  {}

  /** The value of uhyve's guest_size for a requested size (uhyve-x86_64.c:1151-1156). */
  function GuestSize(requested: U64): U64 {
    if requested < GAP_START then requested else (requested + GAP_SIZE) % TWO_64
  }

  /** The size put into the metadata (uhyve-x86_64.c:935-937). */
  function SentSize(guestSize: U64): U64 {
    if (guestSize - GAP_SIZE) % TWO_64 >= GAP_START then (guestSize - GAP_SIZE) % TWO_64 else guestSize
  }

  /** Both hosts end up with the same guest size, for every requested size: below
      768 MB the subtraction wraps and the destination's addition undoes it. */
  lemma GuestSizeRoundTrip(requested: U64)
    ensures GuestSize(SentSize(GuestSize(requested))) == GuestSize(requested)
    ensures 0 < requested < GAP_SIZE ==> SentSize(GuestSize(requested)) >= TWO_63
  {}

  /** The guest gets the memory it asked for, not counting the I/O gap, and from 768 MiB
      on the size sent is the size requested; only a request next to 2^64 differs. */
  lemma GuestUsable(requested: U64)
    requires requested + 0x3000_0000 < 0x1_0000_0000_0000_0000
    ensures GuestSize(requested) < GAP_START || GuestSize(requested) >= GAP_END
    ensures Total(PhysChunks(GuestSize(requested))) == requested
    ensures 0x3000_0000 <= requested ==> SentSize(GuestSize(requested)) == requested
  {
    var g := GuestSize(requested);
    var cs := PhysChunks(g);
    if requested >= GAP_START {
      assert cs[1..] == [Chunk(GAP_END, g - GAP_END)] && cs[1..][1..] == [];
      assert Total(cs[1..]) == g - GAP_END;
    } else {
      assert cs[1..] == [];
    }
  }
}
