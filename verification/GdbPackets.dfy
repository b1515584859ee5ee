/** The GDB remote serial protocol as the stub frames it (uhyve-gdb.c:114-163,
    225-371): hexadecimal bytes, receiving packets and sending them. */
module GdbPackets {
  import opened Bytes

  const DOLLAR: byte := 0x24
  const HASH: byte := 0x23
  const PLUS: byte := 0x2B
  const MINUS: byte := 0x2D
  const COLON: byte := 0x3A
  const BUFMAX: nat := 4096
  const ASCII: nat := 128

  function Hex(ch: byte): (v: int)
    ensures -1 <= v < 16
  {
    if 0x61 <= ch <= 0x66 then ch - 0x61 + 10
    else if 0x30 <= ch <= 0x39 then ch - 0x30
    else if 0x41 <= ch <= 0x46 then ch - 0x41 + 10
    else -1
  }

  /** hexchars[d]. */
  function HexChar(d: nat): (c: byte)
    requires d < 16
    ensures Hex(c) == d && c < ASCII && c !in {DOLLAR, HASH}
  {
    if d < 10 then 0x30 + d else 0x61 + d - 10
  }

  /** Digits are read in either case and written in lower case; every other character
      is invalid. */
  lemma HexDigits(ch: byte, d: nat)
    requires d < 16
    ensures Hex(ch) == d <==> ch as char == "0123456789abcdef"[d] || ch as char == "0123456789ABCDEF"[d]
    ensures HexChar(d) as char == "0123456789abcdef"[d]
  {
    assert d < 10 ==> "0123456789abcdef"[d] == (0x30 + d) as char == "0123456789ABCDEF"[d];
    assert d >= 10 ==> "0123456789abcdef"[d] == (0x57 + d) as char && "0123456789ABCDEF"[d] == (0x37 + d) as char;
  }

  /** An unsigned char made of two digits; an invalid digit counts as -1. */
  function Pair(hi: byte, lo: byte): byte {
    (Hex(hi) * 16 + Hex(lo)) % 256
  }

  function Digits(b: byte): (s: seq<byte>)
    ensures |s| == 2 && Pair(s[0], s[1]) == b && s[0] < ASCII && s[1] < ASCII
  {
    [HexChar(b / 16), HexChar(b % 16)]
  }

  function HexOf(mem: seq<byte>): (s: seq<byte>)
    ensures |s| == 2 * |mem|
  {
    if mem == [] then [] else HexOf(mem[..|mem| - 1]) + Digits(mem[|mem| - 1])
  }

  method Mem2Hex(mem: seq<byte>) returns (buf: seq<byte>)
    ensures buf == HexOf(mem)
  {
    buf := [];
    for i := 0 to |mem|
      invariant buf == HexOf(mem[..i])
    {
      buf := buf + [HexChar(mem[i] / 16)];
      buf := buf + [HexChar(mem[i] % 16)];
      assert mem[..i + 1][..i] == mem[..i];
    }
    assert mem[..|mem|] == mem;
  }

  /** The digits denote these bytes. */
  predicate Denotes(buf: seq<byte>, mem: seq<byte>) {
    |buf| >= 2 * |mem| && forall i: nat :: i < |mem| ==> mem[i] == PairAt(buf, i)
  }

  function PairAt(buf: seq<byte>, i: nat): byte {
    if 2 * i + 1 < |buf| then Pair(buf[2 * i], buf[2 * i + 1]) else 0
  }

  method Hex2Mem(buf: seq<byte>, count: nat) returns (mem: seq<byte>)
    requires |buf| >= 2 * count
    ensures |mem| == count && Denotes(buf, mem)
  {
    mem := [];
    for i := 0 to count
      invariant |mem| == i && Denotes(buf, mem)
    {
      hide Hex, Pair;
      PairSteps(buf[2 * i], buf[2 * i + 1]);
      var ch: byte := (Hex(buf[2 * i]) * 16) % 256;
      ch := (ch + Hex(buf[2 * i + 1])) % 256;
      mem := mem + [ch];
    }
  }

  lemma PairSteps(hi: byte, lo: byte)
    ensures (Hex(hi) * 16 % 256 + Hex(lo)) % 256 == Pair(hi, lo)
  {
    hide Hex;
  }

  lemma {:induction false} HexAt(mem: seq<byte>, i: nat)
    requires i < |mem|
    ensures PairAt(HexOf(mem), i) == mem[i]
  {
    if i < |mem| - 1 {
      HexAt(mem[..|mem| - 1], i);
    }
  }

  /** Reading back what mem2hex wrote gives the same bytes, and nothing else does. */
  lemma HexRoundTrip(mem: seq<byte>, back: seq<byte>)
    requires |back| == |mem|
    ensures Denotes(HexOf(mem), back) <==> back == mem
  {
    forall i: nat | i < |mem| ensures PairAt(HexOf(mem), i) == mem[i] {
      HexAt(mem, i);
    }
  }

  // ------------------------------------------------------------ receiving

  function Sum(s: seq<byte>): byte {
    if s == [] then 0 else (Sum(s[..|s| - 1]) + s[|s| - 1]) % 256
  }

  datatype Collected =
    | Eof(buf: seq<byte>)
    | Alien(buf: seq<byte>)
    | Hash(rest: seq<byte>, buf: seq<byte>, n: nat)
    | Full(rest: seq<byte>, buf: seq<byte>)

  /** Packet data up to '#', with n characters already in the buffer. */
  function Collect(input: seq<byte>, buf: seq<byte>, n: nat): (c: Collected)
    requires |buf| == BUFMAX && n < BUFMAX
    ensures |c.buf| == BUFMAX && (c.Hash? ==> c.n < BUFMAX - 1 && |c.rest| < |input|)
    ensures (c.Full? ==> |c.rest| <= |input|)
    decreases |input|
  {
    if n == BUFMAX - 1 then Full(input, buf[n := 0])
    else if input == [] then Eof(buf)
    else if input[0] >= ASCII then Alien(buf)
    else if input[0] == DOLLAR then Collect(input[1..], buf, 0)
    else if input[0] == HASH then Hash(input[1..], buf[n := 0], n)
    else Collect(input[1..], buf[n := input[0]], n + 1)
  }

  /** `start` is the offset of the returned string in the buffer. A character that is
      not ASCII ends the program (the assertion in recv_char). */
  datatype Received =
    | Closed(acks: seq<byte>, buf: seq<byte>)
    | Aborted(acks: seq<byte>, buf: seq<byte>)
    | Packet(acks: seq<byte>, start: nat, rest: seq<byte>, buf: seq<byte>)

  function After(acks: seq<byte>, r: Received): Received {
    r.(acks := acks + r.acks)
  }

  /** What recv_packet makes of its input and of the static buffer. */
  function Receive(input: seq<byte>, buf: seq<byte>): (r: Received)
    requires |buf| == BUFMAX
    ensures |r.buf| == BUFMAX
    decreases |input|
  {
    if input == [] then Closed([], buf)
    else if input[0] >= ASCII then Aborted([], buf)
    else if input[0] != DOLLAR then Receive(input[1..], buf)
    else Finish(Collect(input[1..], buf, 0), |input|)
  }

  /** After the data: the checksum decides; a full buffer is dropped silently. */
  function Finish(c: Collected, size: nat): (r: Received)
    requires |c.buf| == BUFMAX && (c.Hash? ==> c.n < BUFMAX - 1) && (c.Hash? || c.Full? ==> |c.rest| < size)
    ensures |r.buf| == BUFMAX
    decreases size, 0
  {
    match c
    case Eof(buf) => Closed([], buf)
    case Alien(buf) => Aborted([], buf)
    case Full(rest, buf) => Receive(rest, buf)
    case Hash(rest, buf, n) =>
      if rest == [] then Closed([], buf)
      else if rest[0] >= ASCII then Aborted([], buf)
      else if |rest| == 1 then Closed([], buf)
      else if rest[1] >= ASCII then Aborted([], buf)
      else if Sum(buf[..n]) != Pair(rest[0], rest[1]) then After([MINUS], Receive(rest[2..], buf))
      else if buf[2] == COLON then Packet([PLUS, buf[0], buf[1]], 3, rest[2..], buf)
      else Packet([PLUS], 0, rest[2..], buf)
  }

  datatype Verdict = Null | Die | Retry | Text(start: nat)

  lemma AfterNothing(r: Received)
    ensures After([], r) == r
  {}

  lemma AfterTwice(a: seq<byte>, b: seq<byte>, r: Received)
    ensures After(a, After(b, r)) == After(a + b, r)
  {}

  lemma Dollar(input: seq<byte>, buf: seq<byte>)
    requires |buf| == BUFMAX
    ensures Receive([DOLLAR] + input, buf) == Finish(Collect(input, buf, 0), |input| + 1)
  {
    assert ([DOLLAR] + input)[1..] == input;
  }

  lemma FinishCases(c: Collected, size: nat)
    requires |c.buf| == BUFMAX && (c.Hash? ==> c.n < BUFMAX - 1) && (c.Hash? || c.Full? ==> |c.rest| < size)
    ensures c.Eof? ==> Finish(c, size) == Closed([], c.buf)
    ensures c.Alien? ==> Finish(c, size) == Aborted([], c.buf)
    ensures c.Full? ==> Finish(c, size) == Receive(c.rest, c.buf)
    ensures c.Hash? ==> Finish(c, size) == Finish(c, |c.rest| + 1)
  {}

  /** The stub's end of the connection and its static packet buffer. */
  class Connection {
    var input: seq<byte>
    var output: seq<byte>
    const inBuffer: array<byte>

    ghost predicate Valid()
      reads this, inBuffer
    {
      inBuffer.Length == BUFMAX
    }

    constructor (bytes: seq<byte>)
      ensures Valid() && input == bytes && output == []
    {
      input, output := bytes, [];
      inBuffer := new byte[BUFMAX](_ => 0);
    }

    method SendChar(ch: byte)
      modifies this`output
      ensures output == old(output) + [ch]
    {
      output := output + [ch];
    }

    /** -1 at the end of the stream, -2 where the assertion on ASCII fails. */
    method RecvChar() returns (ch: int)
      modifies this`input
      ensures -2 <= ch < ASCII
      ensures if old(input) == [] then ch == -1 && input == []
              else ch == (if old(input)[0] < ASCII then old(input)[0] else -2) && input == old(input)[1..]
    {
      if input == [] { return -1; }
      ch := if input[0] < ASCII then input[0] else -2;
      input := input[1..];
    }

    /** The inner loop of recv_packet, entered at its retry label. */
    method ReadData() returns (ch: int, count: nat, checksum: byte)
      requires Valid()
      modifies this`input, inBuffer
      ensures Valid() && count < BUFMAX && checksum == Sum(inBuffer[..count])
      ensures match Collect(old(input), old(inBuffer[..]), 0)
              case Eof(buf) => ch == -1 && inBuffer[..] == buf
              case Alien(buf) => ch == -2 && inBuffer[..] == buf
              case Hash(rest, buf, n) => ch == HASH && input == rest && inBuffer[..] == buf && count == n
              case Full(rest, buf) => ch >= 0 && ch != HASH && input == rest && inBuffer[..] == buf
    {
      hide Sum;
      SumNothing();
      assert inBuffer[..0] == [];
      count, checksum, ch := 0, 0, 0;
      while count < BUFMAX - 1
        invariant Valid() && count < BUFMAX && 0 <= ch && ch != HASH && checksum == Sum(inBuffer[..count])
        invariant Collect(input, inBuffer[..], count) == Collect(old(input), old(inBuffer[..]), 0)
        decreases |input|
      {
        ghost var buf := inBuffer[..];
        ch := RecvChar();
        if ch < 0 { return; }
        if ch == DOLLAR {
          count, checksum := 0, 0;
          assert inBuffer[..0] == [];
        } else {
          if ch == HASH { break; }
          SumSnoc(inBuffer[..count], ch);
          checksum := (checksum + ch) % 256;
          inBuffer[count] := ch;
          assert inBuffer[..] == buf[count := ch] && inBuffer[..count + 1] == buf[..count] + [ch];
          count := count + 1;
        }
      }
      ghost var buf := inBuffer[..];
      inBuffer[count] := 0;
      assert inBuffer[..] == buf[count := 0] && inBuffer[..count] == buf[..count];
    }

    /** Ignores everything up to '$'. */
    method SkipToDollar() returns (ch: int)
      requires Valid()
      modifies this`input
      ensures ch == DOLLAR || ch == -1 || ch == -2
      ensures ch == -1 ==> Receive(old(input), inBuffer[..]) == Closed([], inBuffer[..])
      ensures ch == -2 ==> Receive(old(input), inBuffer[..]) == Aborted([], inBuffer[..])
      ensures ch == DOLLAR ==> |input| < |old(input)|
      ensures ch == DOLLAR ==> Receive(old(input), inBuffer[..]) == Receive([DOLLAR] + input, inBuffer[..])
    {
      hide Finish, Collect;
      ch := RecvChar();
      while ch != DOLLAR
        invariant -2 <= ch < ASCII
        invariant ch == -1 ==> Receive(old(input), inBuffer[..]) == Closed([], inBuffer[..])
        invariant ch == -2 ==> Receive(old(input), inBuffer[..]) == Aborted([], inBuffer[..])
        invariant ch >= 0 ==> |input| < |old(input)|
        invariant ch >= 0 ==> Receive(old(input), inBuffer[..]) == Receive([ch] + input, inBuffer[..])
        decreases |input|, ch + 2
      {
        if ch < 0 { return; }
        assert ([ch] + input)[1..] == input;
        ch := RecvChar();
      }
    }

    /** Compares the checksum and answers; Retry after a '-'. */
    method CheckPacket(checksum: byte, ghost n: nat) returns (verdict: Verdict)
      requires Valid() && n < BUFMAX - 1 && checksum == Sum(inBuffer[..n])
      modifies this`input, this`output
      ensures Valid() && |input| <= |old(input)|
      ensures var r := Finish(Hash(old(input), inBuffer[..], n), |old(input)| + 1);
              match verdict
              case Null => r == Closed([], inBuffer[..]) && output == old(output)
              case Die => r == Aborted([], inBuffer[..]) && output == old(output)
              case Retry => |input| < |old(input)| && output == old(output) + [MINUS]
                            && r == After([MINUS], Receive(input, inBuffer[..]))
              case Text(start) =>
                r.Packet? && r == Packet(r.acks, start, input, inBuffer[..]) && output == old(output) + r.acks
    {
      hide Sum, Receive, Hex, Pair;
      var hi := RecvChar();
      if hi < 0 { return if hi == -1 then Null else Die; }
      var lo := RecvChar();
      if lo < 0 { return if lo == -1 then Null else Die; }
      PairSteps(hi, lo);
      var xmit: byte := (Hex(hi) * 16) % 256;
      xmit := (xmit + Hex(lo)) % 256;
      assert input == old(input)[2..];
      if checksum != xmit {
        SendChar(MINUS);
        return Retry;
      }
      SendChar(PLUS);
      if inBuffer[2] == COLON {
        SendChar(inBuffer[0]);
        SendChar(inBuffer[1]);
        return Text(3);
      }
      return Text(0);
    }

    /** recv_packet; -1 stands for NULL, -2 for the failed assertion, otherwise the offset of the returned string. */
    method RecvPacket() returns (start: int)
      requires Valid()
      modifies this`input, this`output, inBuffer
      ensures Valid()
      ensures match Receive(old(input), old(inBuffer[..]))
              case Closed(acks, buf) => start == -1 && output == old(output) + acks && inBuffer[..] == buf
              case Aborted(acks, buf) => start == -2 && output == old(output) + acks && inBuffer[..] == buf
              case Packet(acks, from, rest, buf) =>
                start == from && output == old(output) + acks && inBuffer[..] == buf && input == rest
    {
      hide Collect, Sum, Receive, Finish;
      ghost var acks: seq<byte> := [];
      AfterNothing(Receive(input, inBuffer[..]));
      while true
        invariant Valid() && output == old(output) + acks
        invariant After(acks, Receive(input, inBuffer[..])) == Receive(old(input), old(inBuffer[..]))
        decreases |input|
      {
        var ch := SkipToDollar();
        if ch < 0 { return ch; }
        Dollar(input, inBuffer[..]);
        FinishCases(Collect(input, inBuffer[..], 0), |input| + 1);
        var count, checksum;
        ch, count, checksum := ReadData();
        if ch < 0 { return ch; }
        if ch == HASH {
          var verdict := CheckPacket(checksum, count);
          match verdict
          case Null => return -1;
          case Die => return -2;
          case Text(from) => return from;
          case Retry =>
            AfterTwice(acks, [MINUS], Receive(input, inBuffer[..]));
            acks := acks + [MINUS];
        }
      }
    }

    /** send_packet_no_ack: the string in `buffer` up to its NUL. */
    method SendPacketNoAck(buffer: seq<byte>, ghost n: nat)
      requires n < |buffer| && buffer[n] == 0 && forall i :: 0 <= i < n ==> buffer[i] != 0
      modifies this`output
      ensures output == old(output) + Frame(buffer[..n])
    {
      hide Sum, HexChar;
      SumNothing();
      SendChar(DOLLAR);
      var checksum: byte, count := 0, 0;
      var ch := buffer[count];
      while ch != 0
        invariant count <= n && ch == buffer[count] && checksum == Sum(buffer[..count])
        invariant output == old(output) + [DOLLAR] + buffer[..count]
        decreases n - count
      {
        SendChar(ch);
        SumSnoc(buffer[..count], ch);
        assert buffer[..count] + [ch] == buffer[..count + 1];
        checksum := (checksum + ch) % 256;
        count := count + 1;
        ch := buffer[count];
      }
      SendChar(HASH);
      SendChar(HexChar(checksum / 16));
      SendChar(HexChar(checksum % 16));
      Framed(old(output), buffer[..n]);
    }
  }

  lemma SumSnoc(s: seq<byte>, ch: byte)
    ensures Sum(s + [ch]) == (Sum(s) + ch) % 256
  {
    assert (s + [ch])[..|s|] == s;
  }

  lemma SumNothing()
    ensures Sum([]) == 0
  {}

  lemma Framed(before: seq<byte>, p: seq<byte>)
    ensures before + [DOLLAR] + p + [HASH] + [HexChar(Sum(p) / 16)] + [HexChar(Sum(p) % 16)] == before + Frame(p)
  {
    hide Sum, HexChar;
    var head, tail := before + [DOLLAR] + p + [HASH], Digits(Sum(p));
    assert head + [tail[0]] + [tail[1]] == head + tail;
    assert head + tail == before + Frame(p);
  }

  function Frame(p: seq<byte>): seq<byte> {
    [DOLLAR] + p + [HASH] + Digits(Sum(p))
  }

  // --------------------------------------------------------------- theorems

  /** The buffer with a string of plain characters and its NUL at the front. */
  function Holding(p: seq<byte>, buf: seq<byte>): (r: seq<byte>)
    requires |p| < |buf|
    ensures |r| == |buf|
  {
    p + [0] + buf[|p| + 1..]
  }

  /** ASCII without '$'. */
  predicate Noise(p: seq<byte>) {
    forall i :: 0 <= i < |p| ==> p[i] < ASCII && p[i] != DOLLAR
  }

  predicate Plain(p: seq<byte>) {
    forall i :: 0 <= i < |p| ==> p[i] < ASCII && p[i] != DOLLAR && p[i] != HASH
  }

  /** The C string at `start`. */
  predicate IsString(buf: seq<byte>, start: nat, text: seq<byte>) {
    && start + |text| < |buf| && buf[start..start + |text|] == text && buf[start + |text|] == 0
    && forall i :: 0 <= i < |text| ==> text[i] != 0
  }

  /** Plain data up to '#' lands in the buffer as it is. */
  lemma {:induction false} CollectPlain(p: seq<byte>, more: seq<byte>, buf: seq<byte>, n: nat)
    requires |buf| == BUFMAX && n + |p| < BUFMAX - 1 && Plain(p)
    ensures Collect(p + [HASH] + more, buf, n) == Hash(more, Holding(buf[..n] + p, buf), n + |p|)
    decreases |p|
  {
    var input := p + [HASH] + more;
    if p == [] {
      assert input[1..] == more && Holding(buf[..n] + p, buf) == buf[n := 0];
    } else {
      assert input[1..] == p[1..] + [HASH] + more;
      var next := buf[n := p[0]];
      CollectPlain(p[1..], more, next, n + 1);
      assert next[..n + 1] + p[1..] == buf[..n] + p;
      assert Holding(next[..n + 1] + p[1..], next) == Holding(buf[..n] + p, buf);
    }
  }

  /** Everything before the first '$' is ignored. */
  lemma {:induction false} NoiseIgnored(noise: seq<byte>, input: seq<byte>, buf: seq<byte>)
    requires |buf| == BUFMAX && Noise(noise)
    ensures Receive(noise + input, buf) == Receive(input, buf)
  {
    if noise == [] {
      assert noise + input == input;
    } else {
      assert (noise + input)[1..] == noise[1..] + input;
      NoiseIgnored(noise[1..], input, buf);
    }
  }

  /** What follows `$p#` decides between '+' and '-'. */
  lemma ReceiveData(noise: seq<byte>, p: seq<byte>, hi: byte, lo: byte, rest: seq<byte>, buf: seq<byte>)
    requires |buf| == BUFMAX && Noise(noise) && Plain(p) && |p| < BUFMAX - 1 && hi < ASCII && lo < ASCII
    ensures var b := Holding(p, buf);
            Receive(noise + ([DOLLAR] + p + [HASH] + [hi, lo] + rest), buf)
            == if Sum(p) != Pair(hi, lo) then After([MINUS], Receive(rest, b))
               else if b[2] == COLON then Packet([PLUS, b[0], b[1]], 3, rest, b)
               else Packet([PLUS], 0, rest, b)
  {
    hide Sum, Pair, Collect;
    var input := [DOLLAR] + p + [HASH] + [hi, lo] + rest;
    NoiseIgnored(noise, input, buf);
    CollectPlain(p, [hi, lo] + rest, buf, 0);
    assert input[1..] == p + [HASH] + ([hi, lo] + rest);
    assert buf[..0] + p == p;
    assert ([hi, lo] + rest)[2..] == rest;
    assert Holding(p, buf)[..|p|] == p;
  }

  /** A framed payload comes back and is acknowledged with '+', whatever noise precedes
      it and whatever follows: exactly unless index 2 of the buffer is a colon, which
      for payloads shorter than two characters is left over from an earlier packet. */
  lemma FrameReceivedIff(noise: seq<byte>, p: seq<byte>, rest: seq<byte>, buf: seq<byte>)
    requires |buf| == BUFMAX && Noise(noise) && Plain(p) && 0 !in p && |p| < BUFMAX - 1
    ensures var r := Receive(noise + (Frame(p) + rest), buf);
            && r.Packet? && r.rest == rest
            && (r.acks == [PLUS] && IsString(r.buf, r.start, p) <==> Third(p, buf) != COLON)
            && (|p| > 2 && p[2] == COLON ==> r.acks == [PLUS, p[0], p[1]] && IsString(r.buf, r.start, p[3..]))
  {
    hide Sum, Receive;
    var d := Digits(Sum(p));
    ReceiveData(noise, p, d[0], d[1], rest, buf);
    assert [DOLLAR] + p + [HASH] + [d[0], d[1]] + rest == Frame(p) + rest;
    HoldingString(p, buf);
  }

  /** buffer[2] when the packet is complete. */
  function Third(p: seq<byte>, buf: seq<byte>): byte
    requires |buf| == BUFMAX
  {
    if |p| < 2 then buf[2] else if |p| == 2 then 0 else p[2]
  }

  lemma HoldingString(p: seq<byte>, buf: seq<byte>)
    requires |buf| == BUFMAX && 0 !in p && |p| < BUFMAX - 1
    ensures IsString(Holding(p, buf), 0, p) && Holding(p, buf)[2] == Third(p, buf)
    ensures |p| > 2 ==> IsString(Holding(p, buf), 3, p[3..]) && Holding(p, buf)[0] == p[0] && Holding(p, buf)[1] == p[1]
  {}

  /** A packet with a wrong checksum is answered with '-', and the next good frame is
      still received. */
  lemma RecoversAfterBad(noise: seq<byte>, p: seq<byte>, hi: byte, lo: byte, between: seq<byte>, q: seq<byte>,
                         rest: seq<byte>, buf: seq<byte>)
    requires |buf| == BUFMAX && Noise(noise) && Noise(between)
    requires Plain(p) && |p| < BUFMAX - 1 && hi < ASCII && lo < ASCII && Sum(p) != Pair(hi, lo)
    requires Plain(q) && 0 !in q && |q| < BUFMAX - 1 && Third(q, Holding(p, buf)) != COLON
    ensures var r := Receive(noise + ([DOLLAR] + p + [HASH] + [hi, lo] + (between + (Frame(q) + rest))), buf);
            r.Packet? && r.acks == [MINUS, PLUS] && r.rest == rest && IsString(r.buf, r.start, q)
  {
    hide Sum, Receive, Pair, Holding, Frame, IsString, Third;
    ReceiveData(noise, p, hi, lo, between + (Frame(q) + rest), buf);
    FrameReceivedIff(between, q, rest, Holding(p, buf));
  }

  /** A '$' inside a packet starts it again. */
  lemma {:induction false} DollarRestarts(p: seq<byte>, more: seq<byte>, buf: seq<byte>, n: nat)
    requires |buf| == BUFMAX && n + |p| < BUFMAX - 1 && Plain(p)
    ensures exists b :: |b| == BUFMAX && Collect(p + [DOLLAR] + more, buf, n) == Collect(more, b, 0)
    decreases |p|
  {
    var input := p + [DOLLAR] + more;
    if p == [] {
      assert input[1..] == more;
    } else {
      assert input[1..] == p[1..] + [DOLLAR] + more;
      DollarRestarts(p[1..], more, buf[n := p[0]], n + 1);
    }
  }

  /** A payload that fills the buffer is dropped without any acknowledgement. */
  lemma {:induction false} OverlongDropped(p: seq<byte>, more: seq<byte>, buf: seq<byte>, n: nat)
    requires |buf| == BUFMAX && n + |p| == BUFMAX - 1 && Plain(p)
    ensures Collect(p + more, buf, n) == Full(more, Holding(buf[..n] + p, buf))
    decreases |p|
  {
    if p == [] {
      assert p + more == more && Holding(buf[..n] + p, buf) == buf[n := 0];
    } else {
      assert (p + more)[1..] == p[1..] + more;
      var next := buf[n := p[0]];
      OverlongDropped(p[1..], more, next, n + 1);
      assert next[..n + 1] + p[1..] == buf[..n] + p;
    }
  }

  lemma {:induction false} CollectEof(p: seq<byte>, buf: seq<byte>, n: nat)
    requires |buf| == BUFMAX && n + |p| < BUFMAX - 1 && Plain(p)
    ensures Collect(p, buf, n).Eof?
    decreases |p|
  {
    if p != [] { CollectEof(p[1..], buf[n := p[0]], n + 1); }
  }

  /** A connection that ends anywhere before the last checksum digit gives NULL, and
      nothing has been acknowledged. */
  lemma PrefixIsNull(noise: seq<byte>, p: seq<byte>, k: nat, buf: seq<byte>)
    requires |buf| == BUFMAX && Noise(noise) && Plain(p) && |p| < BUFMAX - 1
    requires k < |noise| + |p| + 4
    ensures |Frame(p)| == |p| + 4
    ensures var r := Receive((noise + Frame(p))[..k], buf); r.Closed? && r.acks == []
  {
    hide Sum, Digits;
    var input := (noise + Frame(p))[..k];
    if k <= |noise| {
      assert input == noise[..k] + [];
      NoiseIgnored(noise[..k], [], buf);
    } else if k <= |noise| + 1 + |p| {
      var q := p[..k - |noise| - 1];
      assert input == noise + ([DOLLAR] + q);
      NoiseIgnored(noise, [DOLLAR] + q, buf);
      Dollar(q, buf);
      CollectEof(q, buf, 0);
    } else {
      var digits := Digits(Sum(p))[..k - |noise| - |p| - 2];
      assert input == noise + ([DOLLAR] + (p + [HASH] + digits));
      NoiseIgnored(noise, [DOLLAR] + (p + [HASH] + digits), buf);
      Dollar(p + [HASH] + digits, buf);
      CollectPlain(p, digits, buf, 0);
    }
  }

  function Total(s: seq<byte>): nat {
    if s == [] then 0 else s[0] + Total(s[1..])
  }

  lemma {:induction false} TotalSnoc(s: seq<byte>, b: byte)
    ensures Total(s + [b]) == Total(s) + b
  {
    if s == [] {
      assert s + [b] == [b] && [b][1..] == [];
    } else {
      assert (s + [b])[1..] == s[1..] + [b];
      TotalSnoc(s[1..], b);
    }
  }

  /** The checksum is the sum of the characters modulo 256. */
  lemma {:induction false} SumIsTotal(s: seq<byte>)
    ensures Sum(s) == Total(s) % 256
  {
    if s != [] {
      var init, last := s[..|s| - 1], s[|s| - 1];
      SumIsTotal(init);
      assert init + [last] == s;
      TotalSnoc(init, last);
      ModSum(Total(init), last);
    }
  }

  lemma ModSum(a: nat, b: nat)
    ensures (a % 256 + b) % 256 == (a + b) % 256
  {}

  /** The reply "OK" on the wire is `$OK#9a`. */
  lemma FrameOk()
    ensures Frame([0x4F, 0x4B]) == [0x24, 0x4F, 0x4B, 0x23, 0x39, 0x61]
  {
    assert [0x4F, 0x4B][..1] == [0x4F] && [0x4F][..0] == [];
    SumNothing();
    assert Sum([0x4F]) == 0x4F;
    assert Sum([0x4F, 0x4B]) == 0x9A;
  }

  /** The colon can be left over: after a packet with a sequence id, a packet of one
      character is answered with a made-up id and its text is not returned. */
  lemma StaleColon(x: byte, y: byte, z: byte, rest: seq<byte>, buf: seq<byte>)
    requires |buf| == BUFMAX && Plain([x, y, z]) && 0 !in [x, y, z]
    ensures var r := Receive(Frame([x, y, COLON]) + (Frame([z]) + rest), buf);
            && r.Packet? && r.rest == Frame([z]) + rest
            && var t := Receive(r.rest, r.buf);
               t.Packet? && t.acks == [PLUS, z, 0] && t.start == 3 && t.rest == rest
  {
    hide Sum, Receive;
    var p, d, e := [x, y, COLON], Digits(Sum([x, y, COLON])), Digits(Sum([z]));
    assert [x, y, z][0] == x && [x, y, z][1] == y && [x, y, z][2] == z;
    ReceiveData([], p, d[0], d[1], Frame([z]) + rest, buf);
    assert [] + ([DOLLAR] + p + [HASH] + [d[0], d[1]] + (Frame([z]) + rest)) == Frame(p) + (Frame([z]) + rest);
    ReceiveData([], [z], e[0], e[1], rest, Holding(p, buf));
    assert [] + ([DOLLAR] + [z] + [HASH] + [e[0], e[1]] + rest) == Frame([z]) + rest;
  }
}
