/** Host commands to the Chrome EC over LPC ports, drivers/google/cros_ec_lpc.c: protocol version 3 and
    version 1 packets. */
module CrosEcLpc {
  import opened Basics
  import opened Words
  import opened Checksums

  const EC_LPC_ADDR_HOST_ARGS := 0x800
  const EC_LPC_ADDR_HOST_PARAM := 0x804
  const EC_LPC_ADDR_HOST_PACKET := 0x800
  const EC_LPC_HOST_PACKET_SIZE := 0x100
  const EC_HOST_PARAM_SIZE := 0xfc
  const EC_COMMAND_PROTOCOL_3 := 0xda
  const EC_HOST_REQUEST_VERSION := 3
  const EC_HOST_RESPONSE_VERSION := 3
  const EC_HOST_ARGS_FLAG_FROM_HOST := 1
  const EC_HOST_ARGS_FLAG_TO_HOST := 2
  const WINDOW := 0x10007   // the ports from 0x800 on, as far as a header with its 16-bit length can lead

  const TIMEOUT_USEC := 1_000_000

  type Memory = m: seq<byte> | |m| == WINDOW witness seq(WINDOW, _ => 0)

  // ----- The EC as the ports show it ----------------------------------------------------------

  /** What the EC does with a command: how many status reads will find it busy, its result code, and what
      it leaves in the window. */
  datatype Reply = Reply(delay: nat, result: byte, mem: Memory)

  datatype Request = Request(command: byte, mem: Memory)

  const EC_LPC_STATUS_BUSY_MASK := 0x06

  class Ports {
    const ec: Request -> Reply
    const reliable: bool       // no read of a port fails
    const lost: nat -> bool    // which writes fail, by their number
    var writes: nat            // the number of the next write
    var mem: Memory
    var busy: nat
    var result: byte
    var requests: seq<Request>   // the commands issued so far

    constructor (ec: Request -> Reply, reliable: bool, lost: nat -> bool, mem: Memory, busy: nat)
      ensures this.ec == ec && this.reliable == reliable && this.lost == lost && this.mem == mem && this.busy == busy
      ensures writes == 0 && requests == []
    {
      this.ec, this.reliable, this.lost, this.mem, this.busy := ec, reliable, lost, mem, busy;
      writes, result, requests := 0, 0, [];
    }

    method Fails() returns (err: bool)
      ensures err ==> !reliable
    {
      err := *;
      if reliable {
        err := false;
      }
    }

    /** io_write8 to the window */
    method Write8(addr: int, val: byte) returns (err: bool)
      requires EC_LPC_ADDR_HOST_PACKET <= addr < EC_LPC_ADDR_HOST_PACKET + WINDOW
      modifies this`mem, this`writes
      ensures err == lost(old(writes)) && writes == old(writes) + 1
      ensures mem == if err then old(mem) else old(mem)[addr - EC_LPC_ADDR_HOST_PACKET := val]
    {
      err := lost(writes);
      writes := writes + 1;
      if !err {
        mem := mem[addr - EC_LPC_ADDR_HOST_PACKET := val];
      }
    }

    /** io_write8 to the command port: the EC takes the request */
    method WriteCommand(command: byte) returns (err: bool)
      modifies this
      ensures err == lost(old(writes)) && writes == old(writes) + 1
      ensures err ==> mem == old(mem) && busy == old(busy) && result == old(result) && requests == old(requests)
      ensures !err ==> var rq := Request(command, old(mem)); var r := ec(rq);
                       requests == old(requests) + [rq] && mem == r.mem && busy == r.delay && result == r.result
    {
      err := lost(writes);
      writes := writes + 1;
      if !err {
        var rq := Request(command, mem);
        requests := requests + [rq];
        var r := ec(rq);
        mem, busy, result := r.mem, r.delay, r.result;
      }
    }

    /** io_read8 from the window */
    method Read8(addr: int) returns (err: bool, val: byte)
      requires EC_LPC_ADDR_HOST_PACKET <= addr < EC_LPC_ADDR_HOST_PACKET + WINDOW
      ensures err ==> !reliable
      ensures !err ==> val == mem[addr - EC_LPC_ADDR_HOST_PACKET]
    {
      err := Fails();
      val := mem[addr - EC_LPC_ADDR_HOST_PACKET];
    }

    /** io_read8 from the status port */
    method ReadStatus() returns (err: bool, status: byte)
      modifies this`busy
      ensures err ==> !reliable
      ensures !err ==> (BitAnd(status, 0x06) != 0 <==> old(busy) > 0)
      ensures busy == if old(busy) > 0 && !err then old(busy) - 1 else old(busy)
    {
      err := Fails();
      var other: int := *;
      assert BitAnd(4, 0x06) == 4;
      status := if 0 <= other < 256 && (BitAnd(other, 0x06) != 0 <==> busy > 0) then other else if busy > 0 then 4 else 0;
      if busy > 0 && !err {
        busy := busy - 1;
      }
    }

    /** io_read8 from the data port */
    method ReadResult() returns (err: bool, val: byte)
      ensures err ==> !reliable
      ensures !err ==> val == result
    {
      err := Fails();
      val := result;
    }
  }

  /** The `n` writes from this number on go through. */
  ghost predicate NoneLost(lost: nat -> bool, from: nat, n: nat) {
    forall k :: from <= k < from + n ==> !lost(k)
  }

  /** 0 if a status read within the bound, one every 10 microseconds, found the EC not busy. */
  method WaitForEc(ports: Ports, timeoutUsec: nat) returns (r: int)
    modifies ports`busy
    ensures r == 0 || r == -1
    ensures r == 0 ==> 10 * old(ports.busy) < timeoutUsec
    ensures ports.reliable ==> (r == 0 <==> 10 * old(ports.busy) < timeoutUsec)
  {
    var i := 0;
    ghost var n: nat := 0;
    while i < timeoutUsec
      invariant i == 10 * n
      invariant old(ports.busy) >= n && ports.busy == old(ports.busy) - n
      decreases timeoutUsec - i
    {
      var err, status := ports.ReadStatus();
      if err {
        return -1;
      }
      if BitAnd(status, EC_LPC_STATUS_BUSY_MASK) == 0 {
        return 0;
      }
      i := i + 10;
      n := n + 1;
    }
    return -1;
  }

  // ----- Version 3 packets --------------------------------------------------------------------

  const HEADER := 8   // sizeof(struct ec_host_request) and sizeof(struct ec_host_response)

  /** struct ec_host_request, with the checksum filled in */
  function RequestHeader(command: nat, version: nat, dataLen: nat, checksum: byte): (h: seq<byte>)
    requires command < 0x1_0000 && dataLen < 0x1_0000
    ensures |h| == HEADER
  {
    [EC_HOST_REQUEST_VERSION, checksum, command % 256, command / 256, version % 256, 0, dataLen % 256, dataLen / 256]
  }

  /** struct ec_host_request and data, as they are to be in the window. */
  function RequestPacket(command: nat, version: nat, data: seq<byte>): (packet: seq<byte>)
    requires command < 0x1_0000 && |data| < 0x1_0000
    ensures |packet| == HEADER + |data|
  {
    RequestHeader(command, version, |data|, Closing(Sum(RequestHeader(command, version, |data|, 0) + data))) + data
  }

  /** A uint16_t member of a header, as the host's byte order has it. */
  function Half(mem: seq<byte>, i: nat): (x: nat)
    requires i + 2 <= |mem|
    ensures x < 0x1_0000
  {
    mem[i] as int + 256 * (mem[i + 1] as int)
  }

  /** EC_CMD_PASSTHRU_OFFSET: the command as the EC behind `device` others gets it. */
  function WireCommand(command: nat, device: nat): nat {
    BitOr(command, 0x4000 * device) % 0x1_0000
  }

  lemma WireCommandAdds(command: nat, device: nat)
    requires command < 0x4000 && device < 4
    ensures WireCommand(command, device) == command + 0x4000 * device
  {
    assert Pow2(14) == 0x4000;
    hide BitOr, Pow2;
    DisjointOr(command, 14, device);
  }

  datatype Decoded = Decoded(command: nat, version: byte, data: seq<byte>)

  /** The request as an EC reads it: nothing unless the whole packet sums to 0. */
  function DecodeRequest(mem: Memory): Option<Decoded> {
    var len := Half(mem, 6);
    if mem[0] != 3 || mem[5] != 0 || HEADER + len > 0x100
       || Sum(mem[..HEADER + len]) % 256 != 0
    then None
    else Some(Decoded(Half(mem, 2), mem[4], mem[HEADER..HEADER + len]))
  }

  /** What the host accepts as a response to a command whose result is 0. */
  predicate Accepts(mem: Memory, insize: nat) {
    var len := Half(mem, 4);
    && mem[0] == EC_HOST_RESPONSE_VERSION
    && Half(mem, 6) == 0
    && len <= insize
    && Sum(mem[..HEADER + len]) % 256 == 0
  }

  function Payload(mem: Memory): seq<byte> {
    mem[HEADER..HEADER + Half(mem, 4)]
  }

  /** struct ec_host_response and payload, as an EC sends them. */
  function Response(result: nat, data: seq<byte>): seq<byte>
    requires result < 0x1_0000 && |data| < 0x1_0000
  {
    ResponseHeader(result, |data|, Closing(Sum(ResponseHeader(result, |data|, 0) + data))) + data
  }

  function ResponseHeader(result: nat, dataLen: nat, checksum: byte): (h: seq<byte>)
    requires result < 0x1_0000 && dataLen < 0x1_0000
    ensures |h| == HEADER
  {
    [3, checksum, result % 256, result / 256, dataLen % 256, dataLen / 256, 0, 0]
  }

  /** (uint8_t)(-csum) */
  function Closing(sum: nat): byte {
    (0 - sum) % 256
  }

  /** Filling in the checksum makes the packet sum to 0. */
  lemma ChecksumCloses(packet: seq<byte>, c: byte)
    requires |packet| >= 2 && packet[1] == 0 && c == Closing(Sum(packet))
    ensures Sum(packet[1 := c]) % 256 == 0
  {
    SumUpdate(packet, 1, c);
  }

  /** Where the fields of a request are. */
  lemma RequestLayout(command: nat, version: nat, data: seq<byte>)
    requires command < 0x1_0000 && |data| < 0x1_0000
    ensures var p := RequestPacket(command, version, data);
            && |p| == 8 + |data| && p[0] == 3 && p[5] == 0 && p[8..] == data
            && p[2] as int + 256 * (p[3] as int) == command && p[4] == version % 256
            && p[6] as int + 256 * (p[7] as int) == |data|
            && Sum(p) % 256 == 0
  {
    hide Sum;
    var blank := RequestHeader(command, version, |data|, 0) + data;
    var p := RequestPacket(command, version, data);
    assert p == blank[1 := p[1]];
    ChecksumCloses(blank, p[1]);
  }

  /** And those of a response. */
  lemma ResponseLayout(result: nat, data: seq<byte>)
    requires result < 0x1_0000 && |data| < 0x1_0000
    ensures var p := Response(result, data);
            && |p| == 8 + |data| && p[0] == 3 && p[6] == 0 && p[7] == 0 && p[8..] == data
            && p[2] as int + 256 * (p[3] as int) == result
            && p[4] as int + 256 * (p[5] as int) == |data|
            && Sum(p) % 256 == 0
  {
    hide Sum;
    var blank := ResponseHeader(result, |data|, 0) + data;
    var p := Response(result, data);
    assert p == blank[1 := p[1]];
    ChecksumCloses(blank, p[1]);
  }

  lemma RequestDecodes(mem: Memory, command: nat, version: nat, data: seq<byte>, checksum: byte)
    requires command < 0x1_0000 && HEADER + |data| <= EC_LPC_HOST_PACKET_SIZE
    requires checksum == Closing(Sum(RequestHeader(command, version, |data|, 0) + data))
    requires mem[..HEADER + |data|] == RequestHeader(command, version, |data|, checksum) + data
    ensures DecodeRequest(mem) == Some(Decoded(command, version % 256, data))
  {
    hide Sum;
    var h := RequestHeader(command, version, |data|, checksum);
    var packet := mem[..HEADER + |data|];
    assert forall i :: 0 <= i < HEADER ==> mem[i] == packet[i] == h[i];
    assert mem[HEADER..HEADER + |data|] == packet[HEADER..] == data;
    assert Half(mem, 2) == command && Half(mem, 6) == |data|;
    assert Sum(packet) % 256 == 0 by {
      var blank := RequestHeader(command, version, |data|, 0) + data;
      assert blank[1 := checksum] == packet;
      ChecksumCloses(blank, checksum);
    }
  }

  /** A correct response is accepted if it fits, and its payload is what was sent. */
  lemma ResponseAccepted(mem: Memory, result: nat, data: seq<byte>, insize: nat)
    requires result < 0x1_0000 && HEADER + |data| <= WINDOW && |data| <= insize
    requires mem[..HEADER + |data|] == Response(result, data)
    ensures Accepts(mem, insize) && Payload(mem) == data
  {
    hide Sum;
    var packet := mem[..HEADER + |data|];
    var blank := ResponseHeader(result, |data|, 0) + data;
    var h := ResponseHeader(result, |data|, Closing(Sum(blank)));
    assert forall i :: 0 <= i < HEADER ==> mem[i] == packet[i] == h[i];
    assert mem[HEADER..HEADER + |data|] == packet[HEADER..] == data;
    assert Half(mem, 4) == |data| && Half(mem, 6) == 0;
    assert Sum(packet) % 256 == 0 by {
      assert blank[1 := packet[1]] == packet;
      ChecksumCloses(blank, packet[1]);
    }
  }

  /** Any single changed byte of an accepted response but those of its length, so in particular of the
      payload and the checksum, makes the host reject it. */
  lemma CorruptionDetected(mem: Memory, insize: nat, i: nat, x: byte)
    requires Accepts(mem, insize) && i < HEADER + Half(mem, 4) && i != 4 && i != 5 && x != mem[i]
    ensures !Accepts(mem[i := x], insize)
  {
    var n := HEADER + Half(mem, 4);
    assert mem[i := x][..n] == mem[..n][i := x];
    SumUpdate(mem[..n], i, x);
    OneByteShows(Sum(mem[..n]), mem[i], x);
  }

  /** The command issued by cros_ec_command_lpc_v3. */
  ghost predicate IsRequest(rq: Request, command: nat, version: nat, data: seq<byte>) {
    && rq.command == 0xda
    && DecodeRequest(rq.mem) == Some(Decoded(command, version % 256, data))
  }

  /** What the host takes for a good answer: in time, without error, with a packet that adds up. */
  ghost predicate LooksGood(busy: nat, result: byte, mem: Memory, insize: nat) {
    busy < 100_000 && result == 0 && Accepts(mem, insize)
  }

  /** The EC has given a good answer. */
  ghost predicate Answered(r: Reply, insize: nat) {
    LooksGood(r.delay, r.result, r.mem, insize)
  }

  /** The caller's buffer from `n` on is as it was. */
  predicate Untouched(now: seq<byte>, was: seq<byte>, n: nat) {
    |now| == |was| && forall k :: n <= k < |now| ==> now[k] == was[k]
  }

  /** The payload is in the caller's buffer, and the rest of it is as it was. */
  predicate Received(now: seq<byte>, was: seq<byte>, payload: seq<byte>) {
    |payload| <= |now| && now[..|payload|] == payload && Untouched(now, was, |payload|)
  }

  // The code does not look at the results of its writes. What comes of it if some are lost:

  /** The number of the write that byte `k` of a packet of `n` bytes is sent with, the data going before the
      header, and the first write having number `w`. */
  function WriteOf(k: nat, n: nat, w: nat): nat
    requires HEADER <= n
  {
    if k < HEADER then w + n - HEADER + k else w + k - HEADER
  }

  /** The window after a packet has been written over `was`. */
  function WindowAfter(was: Memory, packet: seq<byte>, lost: nat -> bool, w: nat): (mem: Memory)
    requires HEADER <= |packet|
    ensures forall k :: 0 <= k < WINDOW ==>
                          mem[k] == if k < |packet| && !lost(WriteOf(k, |packet|, w)) then packet[k] else was[k]
  {
    seq(WINDOW, k requires 0 <= k < WINDOW => if k < |packet| && !lost(WriteOf(k, |packet|, w)) then packet[k] else was[k])
  }

  /** Every byte whose write is lost was in the window already. */
  ghost predicate Intact(was: Memory, packet: seq<byte>, lost: nat -> bool, w: nat)
    requires HEADER <= |packet| <= WINDOW
  {
    forall k :: 0 <= k < |packet| && lost(WriteOf(k, |packet|, w)) ==> was[k] == packet[k]
  }

  /** What comes of an attempt: the request the EC has got, if any, whether the host takes the result for
      success, and the window it reads. */
  datatype Outcome = Outcome(issued: Option<Request>, ok: bool, window: Memory)

  /** An attempt to send the packet, from a state of the ports and with some writes lost. */
  ghost function Attempt(ec: Request -> Reply, lost: nat -> bool, w: nat, was: Memory, busy: nat, result: byte,
                         packet: seq<byte>, insize: nat): Outcome
    requires HEADER <= |packet|
  {
    var window := WindowAfter(was, packet, lost, w);
    if lost(w + |packet|) then Outcome(None, LooksGood(busy, result, window, insize), window)
    else
      var rq := Request(EC_COMMAND_PROTOCOL_3, window);
      Outcome(Some(rq), Answered(ec(rq), insize), ec(rq).mem)
  }

  lemma WindowIsPacket(was: Memory, packet: seq<byte>, lost: nat -> bool, w: nat)
    requires HEADER <= |packet| <= WINDOW
    ensures WindowAfter(was, packet, lost, w)[..|packet|] == packet <==> Intact(was, packet, lost, w)
  {
    var window := WindowAfter(was, packet, lost, w);
    hide WindowAfter;
    if window[..|packet|] == packet {
      forall k | 0 <= k < |packet| && lost(WriteOf(k, |packet|, w)) ensures was[k] == packet[k] {
        assert window[..|packet|][k] == packet[k];
      }
    }
  }

  /** The EC reads back command, version and data exactly if the window holds the packet they make. */
  lemma DecodesIff(mem: Memory, command: nat, version: nat, data: seq<byte>)
    requires command < 0x1_0000 && HEADER + |data| <= EC_LPC_HOST_PACKET_SIZE
    ensures DecodeRequest(mem) == Some(Decoded(command, version % 256, data)) <==>
            mem[..HEADER + |data|] == RequestPacket(command, version, data)
  {
    var blank := RequestHeader(command, version, |data|, 0) + data;
    if mem[..HEADER + |data|] == RequestPacket(command, version, data) {
      RequestDecodes(mem, command, version, data, Closing(Sum(blank)));
    } else if DecodeRequest(mem) == Some(Decoded(command, version % 256, data)) {
      DecodedIsPacket(mem, command, version, data);
    }
  }

  lemma DecodedIsPacket(mem: Memory, command: nat, version: nat, data: seq<byte>)
    requires command < 0x1_0000 && HEADER + |data| <= EC_LPC_HOST_PACKET_SIZE
    requires DecodeRequest(mem) == Some(Decoded(command, version % 256, data))
    ensures mem[..HEADER + |data|] == RequestPacket(command, version, data)
  {
    DecodedParts(mem, command, version, data);
    var h, blank := RequestHeader(command, version, |data|, mem[1]), RequestHeader(command, version, |data|, 0) + data;
    assert h + data == blank[1 := mem[1]] && blank[1] == 0;
    hide *;
    SumUpdate(blank, 1, mem[1]);
    ClosingIs(Sum(blank), mem[1]);
    PacketIs(command, version, data);
  }

  lemma DecodedParts(mem: Memory, command: nat, version: nat, data: seq<byte>)
    requires command < 0x1_0000 && HEADER + |data| <= EC_LPC_HOST_PACKET_SIZE
    requires DecodeRequest(mem) == Some(Decoded(command, version % 256, data))
    ensures mem[..HEADER + |data|] == RequestHeader(command, version, |data|, mem[1]) + data
    ensures Sum(mem[..HEADER + |data|]) % 256 == 0
  {
    hide Sum;
    Halves(mem[2], mem[3], command);
    Halves(mem[6], mem[7], |data|);
    assert mem[HEADER..HEADER + |data|] == data;
    assert mem[..HEADER] == RequestHeader(command, version, |data|, mem[1]);
    assert mem[..HEADER + |data|] == mem[..HEADER] + data;
  }

  lemma Halves(low: byte, high: byte, x: nat)
    requires x == low as int + 256 * (high as int)
    ensures low == x % 256 && high == x / 256
  {
    ModUnique(x, 256, high, low);
  }

  lemma ClosingIs(sum: nat, c: byte)
    requires (sum + c) % 256 == 0
    ensures c == Closing(sum)
  {}

  lemma PacketIs(command: nat, version: nat, data: seq<byte>)
    requires command < 0x1_0000 && |data| < 0x1_0000
    ensures var checksum := Closing(Sum(RequestHeader(command, version, |data|, 0) + data));
            RequestPacket(command, version, data) == RequestHeader(command, version, |data|, checksum) + data
  {}

  /** The EC gets the caller's request exactly if the command goes through and no lost byte was missing. */
  lemma GetsRequestIff(ec: Request -> Reply, lost: nat -> bool, w: nat, was: Memory, busy: nat, result: byte,
                       command: nat, version: nat, data: seq<byte>, insize: nat)
    requires command < 0x1_0000 && HEADER + |data| <= EC_LPC_HOST_PACKET_SIZE
    ensures var packet := RequestPacket(command, version, data);
            var o := Attempt(ec, lost, w, was, busy, result, packet, insize);
            o.issued.Some? && IsRequest(o.issued.value, command, version, data)
            <==> !lost(w + |packet|) && Intact(was, packet, lost, w)
  {
    var packet := RequestPacket(command, version, data);
    hide WindowAfter, RequestPacket, DecodeRequest, Intact;
    WindowIsPacket(was, packet, lost, w);
    DecodesIff(WindowAfter(was, packet, lost, w), command, version, data);
  }

  /** If the write to the command port is lost, the host takes its own request for the response. It accepts it
      exactly if there is no data and what lies behind the header, as long as the version says, sums to 0. */
  lemma LostCommandIff(mem: Memory, command: nat, version: nat, data: seq<byte>, insize: nat)
    requires command < 0x1_0000 && HEADER + |data| <= EC_LPC_HOST_PACKET_SIZE
    requires mem[..HEADER + |data|] == RequestPacket(command, version, data)
    ensures Accepts(mem, insize) <==>
            data == [] && version % 256 <= insize && Sum(mem[HEADER..HEADER + version % 256]) % 256 == 0
    ensures |Payload(mem)| == version % 256
  {
    hide Sum;
    var h := RequestHeader(command, version, |data|, Closing(Sum(RequestHeader(command, version, |data|, 0) + data)));
    assert forall i :: 0 <= i < HEADER ==> mem[i] == mem[..HEADER + |data|][i] == h[i];
    assert Half(mem, 4) == version % 256 && Half(mem, 6) == |data|;
    if data == [] {
      var blank := RequestHeader(command, version, 0, 0) + data;
      assert mem[..HEADER] == blank[1 := mem[1]];
      ChecksumCloses(blank, mem[1]);
      HeaderAndData(mem, HEADER, version % 256);
    }
  }

  /** The same before the attempt: when only writes are lost that bring nothing new, and the one to the command
      port, the host reports success for a request that was never made exactly under this condition. */
  lemma SuccessWithoutRequestIff(ec: Request -> Reply, lost: nat -> bool, w: nat, was: Memory, busy: nat, result: byte,
                                 command: nat, version: nat, data: seq<byte>, insize: nat)
    requires command < 0x1_0000 && HEADER + |data| <= EC_LPC_HOST_PACKET_SIZE
    requires var packet := RequestPacket(command, version, data); lost(w + |packet|) && Intact(was, packet, lost, w)
    ensures var o := Attempt(ec, lost, w, was, busy, result, RequestPacket(command, version, data), insize);
            && o.issued.None?
            && (o.ok <==> && busy < 100_000 && result == 0
                          && data == [] && version % 256 <= insize && Sum(was[HEADER..HEADER + version % 256]) % 256 == 0)
  {
    var packet := RequestPacket(command, version, data);
    var window := WindowAfter(was, packet, lost, w);
    WindowIsPacket(was, packet, lost, w);
    if data == [] {
      assert window[HEADER..HEADER + version % 256] == was[HEADER..HEADER + version % 256];
    }
    hide WindowAfter, RequestPacket, Accepts, Sum;
    LostCommandIff(window, command, version, data, insize);
  }

  /** So success can be reported for a request that was never made: every command of version 0 without data,
      from ports that are not busy, if just the write to the command port is lost. */
  lemma SuccessWithoutRequest(ec: Request -> Reply, was: Memory, command: nat, insize: nat) returns (lost: nat -> bool)
    requires command < 0x1_0000
    ensures var o := Attempt(ec, lost, 0, was, 0, 0, RequestPacket(command, 0, []), insize);
            o.issued.None? && o.ok && Payload(o.window) == []
  {
    lost := k => k == HEADER;
    var packet := RequestPacket(command, 0, []);
    var window := WindowAfter(was, packet, lost, 0);
    WindowIsPacket(was, packet, lost, 0);
    hide WindowAfter, RequestPacket, Accepts;
    LostCommandIff(window, command, 0, [], insize);
    assert Sum(window[HEADER..HEADER]) == 0;
  }

  /** What the host takes for success is the EC's good answer to the caller's request exactly if the command
      goes through and no lost byte was missing. */
  lemma SuccessIsAnswerIff(ec: Request -> Reply, lost: nat -> bool, w: nat, was: Memory, busy: nat, result: byte,
                           command: nat, version: nat, data: seq<byte>, insize: nat)
    requires command < 0x1_0000 && HEADER + |data| <= EC_LPC_HOST_PACKET_SIZE
    requires Attempt(ec, lost, w, was, busy, result, RequestPacket(command, version, data), insize).ok
    ensures var packet := RequestPacket(command, version, data);
            var o := Attempt(ec, lost, w, was, busy, result, packet, insize);
            (exists rq :: o.issued == Some(rq) && IsRequest(rq, command, version, data) && Answered(ec(rq), insize))
            <==> !lost(w + |packet|) && Intact(was, packet, lost, w)
  {
    GetsRequestIff(ec, lost, w, was, busy, result, command, version, data, insize);
  }

  /** Writes `s` to consecutive ports of the window. A write that fails goes unnoticed. */
  method WriteBytes(ports: Ports, addr: int, s: seq<byte>)
    requires EC_LPC_ADDR_HOST_PACKET <= addr && addr + |s| <= EC_LPC_ADDR_HOST_PACKET + WINDOW
    modifies ports`mem, ports`writes
    ensures ports.writes == old(ports.writes) + |s|
    ensures Overwritten(ports.mem, old(ports.mem), addr - EC_LPC_ADDR_HOST_PACKET, s, ports.lost, old(ports.writes))
  {
    var at := addr - EC_LPC_ADDR_HOST_PACKET;
    for i := 0 to |s|
      invariant ports.writes == old(ports.writes) + i
      invariant Overwritten(ports.mem, old(ports.mem), at, s[..i], ports.lost, old(ports.writes))
    {
      var _ := ports.Write8(addr + i, s[i]);
    }
    assert s[..|s|] == s;
  }

  /** `s` has been written over `was` from `at` on, but for the writes that are lost. */
  ghost predicate Overwritten(now: Memory, was: Memory, at: int, s: seq<byte>, lost: nat -> bool, w: nat) {
    forall k :: 0 <= k < WINDOW ==> now[k] == if at <= k < at + |s| && !lost(w + k - at) then s[k - at] else was[k]
  }

  /** What is issued, taken for success and read is what Attempt says, whichever writes are lost; in particular
      the caller's request is issued, and 0 means its answer, if none is. Reads that fail make the command
      fail. The payload is in `indata`, and nothing else of it has changed. */
  method CommandV3(ports: Ports, device: nat, command: nat, version: nat, indata: array<byte>, insize: nat, outdata: seq<byte>)
    returns (ret: int)
    requires insize <= indata.Length
    modifies ports, indata
    ensures Untouched(indata[..], old(indata[..]), insize)
    ensures if |outdata| + 8 > 0x100 then
              ret != 0 && ports.requests == old(ports.requests) && ports.writes == old(ports.writes)
            else
              var packet := RequestPacket(WireCommand(command, device), version, outdata);
              var o := Attempt(ports.ec, ports.lost, old(ports.writes), old(ports.mem), old(ports.busy), old(ports.result),
                               packet, insize);
              && ports.writes == old(ports.writes) + |packet| + 1
              && ports.requests == old(ports.requests) + (if o.issued.Some? then [o.issued.value] else [])
              && (ret == 0 ==> o.ok && Received(indata[..], old(indata[..]), Payload(o.window)))
              && (ports.reliable && o.ok ==> ret == 0)
              && (NoneLost(ports.lost, old(ports.writes), |packet| + 1) ==>
                    o.issued.Some? && IsRequest(o.issued.value, WireCommand(command, device), version, outdata))
  {
    if |outdata| + HEADER > EC_LPC_HOST_PACKET_SIZE {
      return -1;
    }
    var cmd := WireCommand(command, device);
    ghost var packet := RequestPacket(cmd, version, outdata);
    ghost var busy, result, was, w := ports.busy, ports.result, ports.mem, ports.writes;
    IssuedIfNoneLost(ports.ec, ports.lost, w, was, busy, result, cmd, version, outdata, insize);
    hide WireCommand, RequestPacket, WindowAfter, Accepts, IsRequest, NoneLost;
    WriteRequestV3(ports, cmd, version, outdata);
    var _ := ports.WriteCommand(EC_COMMAND_PROTOCOL_3);
    ret := ReadResponseV3(ports, indata, insize);
  }

  lemma IssuedIfNoneLost(ec: Request -> Reply, lost: nat -> bool, w: nat, was: Memory, busy: nat, result: byte,
                         command: nat, version: nat, data: seq<byte>, insize: nat)
    requires command < 0x1_0000 && HEADER + |data| <= EC_LPC_HOST_PACKET_SIZE
    ensures var packet := RequestPacket(command, version, data);
            NoneLost(lost, w, |packet| + 1) ==>
              var o := Attempt(ec, lost, w, was, busy, result, packet, insize);
              o.issued.Some? && IsRequest(o.issued.value, command, version, data)
  {
    hide RequestPacket, WindowAfter;
    GetsRequestIff(ec, lost, w, was, busy, result, command, version, data, insize);
  }

  /** The first half of cros_ec_command_lpc_v3: payload and header go into the window. */
  method WriteRequestV3(ports: Ports, command: nat, version: nat, outdata: seq<byte>)
    requires command < 0x1_0000 && |outdata| + HEADER <= EC_LPC_HOST_PACKET_SIZE
    modifies ports`mem, ports`writes
    ensures var packet := RequestPacket(command, version, outdata);
            && ports.writes == old(ports.writes) + |packet|
            && ports.mem == WindowAfter(old(ports.mem), packet, ports.lost, old(ports.writes))
  {
    hide Sum, RequestHeader, WindowAfter, Overwritten;
    ghost var mem0, w := ports.mem, ports.writes;
    WriteBytes(ports, EC_LPC_ADDR_HOST_PACKET + HEADER, outdata);
    ghost var mem1 := ports.mem;
    var blank := RequestHeader(command, version, |outdata|, 0);
    var csum := SumUp(outdata, 0);
    csum := SumUp(blank, csum);
    SumConcat(blank, outdata);
    var checksum := Closing(csum);
    var rq := RequestHeader(command, version, |outdata|, checksum);
    WriteBytes(ports, EC_LPC_ADDR_HOST_PACKET, rq);
    BothParts(ports.mem, mem1, mem0, rq, outdata, ports.lost, w);
  }

  lemma BothParts(mem2: Memory, mem1: Memory, mem0: Memory, rq: seq<byte>, outdata: seq<byte>, lost: nat -> bool, w: nat)
    requires |rq| == HEADER
    requires Overwritten(mem1, mem0, HEADER, outdata, lost, w) && Overwritten(mem2, mem1, 0, rq, lost, w + |outdata|)
    ensures mem2 == WindowAfter(mem0, rq + outdata, lost, w)
  {
    var packet, window := rq + outdata, WindowAfter(mem0, rq + outdata, lost, w);
    hide WindowAfter;
    forall k | 0 <= k < WINDOW ensures mem2[k] == window[k] {
      if k < HEADER {
        assert WriteOf(k, |packet|, w) == w + |outdata| + k && packet[k] == rq[k];
      } else if k < |packet| {
        assert WriteOf(k, |packet|, w) == w + k - HEADER && packet[k] == outdata[k - HEADER];
      }
    }
  }

  /** Adds the bytes to a sum. */
  method SumUp(s: seq<byte>, start: nat) returns (csum: nat)
    ensures csum == start + Sum(s)
  {
    csum := start;
    for i := 0 to |s|
      invariant csum == start + Sum(s[..i])
    {
      SumUpTo(s, i);
      csum := csum + s[i];
    }
    assert s[..|s|] == s;
  }

  /** The second half of cros_ec_command_lpc_v3, from the wait for the EC on. */
  method ReadResponseV3(ports: Ports, indata: array<byte>, insize: nat) returns (ret: int)
    requires insize <= indata.Length
    modifies ports`busy, indata
    ensures Untouched(indata[..], old(indata[..]), insize)
    ensures ret == 0 ==> old(ports.busy) < 100_000 && ports.result == 0 && Accepts(ports.mem, insize)
                         && Received(indata[..], old(indata[..]), Payload(ports.mem))
    ensures ports.reliable && old(ports.busy) < 100_000 && ports.result == 0 && Accepts(ports.mem, insize) ==>
              ret == 0
  {
    var late := WaitForEc(ports, TIMEOUT_USEC);
    if late != 0 {
      return -1;
    }
    var err, out := ports.ReadResult();
    if err {
      return -1;
    }
    if out != 0 {
      return -HEADER;   // the loop index, not the result code
    }
    var rs, csum;
    err, rs, csum := ReadHeader(ports, EC_LPC_ADDR_HOST_PACKET, HEADER);
    if err {
      return -1;
    }
    var dataLen := Half(rs, 4);
    if rs[0] != EC_HOST_RESPONSE_VERSION || Half(rs, 6) != 0 || dataLen > insize {
      return -1;
    }
    var sum;
    err, sum := ReadData(ports, EC_LPC_ADDR_HOST_PACKET + HEADER, indata, dataLen);
    if err {
      return -1;
    }
    HeaderAndData(ports.mem, HEADER, dataLen);
    csum := csum + sum;
    if csum % 256 != 0 {
      return -1;
    }
    return 0;
  }

  lemma HeaderAndData(mem: Memory, n: nat, dataLen: nat)
    requires n + dataLen <= WINDOW
    ensures Sum(mem[..n + dataLen]) == Sum(mem[..n]) + Sum(mem[n..n + dataLen])
  {
    SumConcat(mem[..n], mem[n..n + dataLen]);
    assert mem[..n + dataLen] == mem[..n] + mem[n..n + dataLen];
  }

  /** Reads `n` bytes from consecutive ports of the window into a header, adding them up. */
  method ReadHeader(ports: Ports, addr: int, n: nat) returns (err: bool, header: seq<byte>, sum: nat)
    requires EC_LPC_ADDR_HOST_PACKET <= addr && addr + n <= EC_LPC_ADDR_HOST_PACKET + WINDOW
    ensures err ==> !ports.reliable
    ensures !err ==> header == ports.mem[addr - EC_LPC_ADDR_HOST_PACKET..addr - EC_LPC_ADDR_HOST_PACKET + n] && sum == Sum(header)
  {
    ghost var at := addr - EC_LPC_ADDR_HOST_PACKET;
    header, sum := [], 0;
    for i := 0 to n
      invariant header == ports.mem[at..at + i] && sum == Sum(header)
    {
      var val;
      err, val := ports.Read8(addr + i);
      if err {
        return;
      }
      SumSnoc(header, val);
      header := header + [val];
      sum := sum + val;
    }
    err := false;
  }

  /** Reads `n` bytes from consecutive ports of the window into the caller's buffer, adding them up. */
  method ReadData(ports: Ports, addr: int, indata: array<byte>, n: nat) returns (err: bool, sum: nat)
    requires EC_LPC_ADDR_HOST_PACKET <= addr && addr + n <= EC_LPC_ADDR_HOST_PACKET + WINDOW && n <= indata.Length
    modifies indata
    ensures err ==> !ports.reliable
    ensures Untouched(indata[..], old(indata[..]), n)
    ensures !err ==> var data := ports.mem[addr - EC_LPC_ADDR_HOST_PACKET..addr - EC_LPC_ADDR_HOST_PACKET + n];
                     sum == Sum(data) && Received(indata[..], old(indata[..]), data)
  {
    ghost var at, was := addr - EC_LPC_ADDR_HOST_PACKET, indata[..];
    sum := 0;
    for i := 0 to n
      invariant sum == Sum(ports.mem[at..at + i])
      invariant forall k :: 0 <= k < i ==> indata[k] == ports.mem[at + k]
      invariant forall k :: i <= k < indata.Length ==> indata[k] == was[k]
    {
      var val;
      err, val := ports.Read8(addr + i);
      if err {
        return;
      }
      OneMoreByte(ports.mem, at, i);
      indata[i] := val;
      sum := sum + val;
    }
    err := false;
  }

  lemma OneMoreByte(mem: Memory, at: nat, i: nat)
    requires at + i < WINDOW
    ensures Sum(mem[at..at + i + 1]) == Sum(mem[at..at + i]) + mem[at + i]
  {
    assert mem[at..at + i + 1] == mem[at..at + i] + [mem[at + i]];
    SumSnoc(mem[at..at + i], mem[at + i]);
  }

  /** An EC that serves `f` over version 3: it answers every request it can decode, in time. */
  ghost predicate Serves(ec: Request -> Reply, f: Decoded -> seq<byte>) {
    forall rq: Request :: rq.command == 0xda && DecodeRequest(rq.mem).Some? ==>
      var data, r := f(DecodeRequest(rq.mem).value), ec(rq);
      && HEADER + |data| <= EC_LPC_HOST_PACKET_SIZE
      && r.delay < 100_000 && r.result == 0 && r.mem[..HEADER + |data|] == Response(0, data)
  }

  /** With such an EC the exchange goes well exactly if the answer fits, and the payload is the answer. */
  lemma ExchangeV3(ec: Request -> Reply, f: Decoded -> seq<byte>, rq: Request, command: nat, version: nat, data: seq<byte>, insize: nat)
    requires Serves(ec, f) && IsRequest(rq, command, version, data)
    ensures var answer := f(Decoded(command, version % 256, data));
            && (Answered(ec(rq), insize) <==> |answer| <= insize)
            && Payload(ec(rq).mem) == answer
  {
    var answer := f(Decoded(command, version % 256, data));
    ResponseAccepted(ec(rq).mem, 0, answer, |answer|);
  }

  // ----- Version 1 arguments ------------------------------------------------------------------

  const ARGS := 4   // sizeof(struct ec_lpc_host_args): flags, command_version, data_size, checksum

  /** Sum of command, flags, version, size and data. */
  function ArgsSum(command: nat, mem: Memory): nat
    requires ARGS + mem[2] <= WINDOW
  {
    command + mem[0] + mem[1] + mem[2] + Sum(mem[ARGS..ARGS + mem[2]])
  }

  /** The request as an EC reads it. */
  function DecodeArgs(rq: Request): Option<Decoded> {
    if rq.mem[0] != 1 || rq.mem[2] > 0xfc
       || rq.mem[3] != ArgsSum(rq.command, rq.mem) % 256
    then None
    else Some(Decoded(rq.command, rq.mem[1], rq.mem[ARGS..ARGS + rq.mem[2]]))
  }

  predicate AcceptsArgs(command: nat, mem: Memory, insize: nat) {
    BitAnd(mem[0], 2) != 0 && mem[2] <= insize && mem[3] == ArgsSum(command, mem) % 256
  }

  /** Arguments and payload, as an EC sends them in answer to `command`. */
  function ArgsResponse(command: nat, flags: byte, version: byte, data: seq<byte>): seq<byte>
    requires |data| < 256
  {
    [flags, version, |data|, (command + flags + version + |data| + Sum(data)) % 256] + data
  }

  lemma ArgsResponseAccepted(mem: Memory, command: nat, flags: byte, version: byte, data: seq<byte>, insize: nat)
    requires |data| < 256 && |data| <= insize && BitAnd(flags, 2) != 0
    requires mem[..ARGS + |data|] == ArgsResponse(command, flags, version, data)
    ensures AcceptsArgs(command, mem, insize) && mem[ARGS..ARGS + mem[2]] == data
  {
    var packet := mem[..ARGS + |data|];
    assert forall i :: 0 <= i < ARGS ==> mem[i] == packet[i];
    assert mem[ARGS..ARGS + |data|] == packet[ARGS..] == data;
  }

  /** In particular with the flags 0x02. */
  lemma AnswerAccepted(mem: Memory, command: nat, version: byte, data: seq<byte>, insize: nat)
    requires |data| < 256 && |data| <= insize && mem[..4 + |data|] == ArgsResponse(command, 2, version, data)
    ensures AcceptsArgs(command, mem, insize) && mem[4..4 + mem[2]] == data
  {
    assert BitAnd(2, 2) != 0;
    ArgsResponseAccepted(mem, command, 2, version, data, insize);
  }

  /** A request that an old EC has left where it was is never taken for the response. */
  lemma RequestIsNoAnswer(rq: Request, insize: nat)
    requires DecodeArgs(rq).Some?
    ensures !AcceptsArgs(rq.command, rq.mem, insize)
  {
    assert BitAnd(1, 2) == 0;
  }

  /** Any single changed byte of arguments and payload but the size makes the host reject the response. */
  lemma ArgsCorruptionDetected(command: nat, mem: Memory, insize: nat, i: nat, x: byte)
    requires AcceptsArgs(command, mem, insize) && i < ARGS + mem[2] && i != 2 && x != mem[i]
    ensures !AcceptsArgs(command, mem[i := x], insize)
  {
    hide Sum;
    var data, n := mem[ARGS..ARGS + mem[2]], mem[2];
    var data' := mem[i := x][ARGS..ARGS + n];
    if i < ARGS {
      assert data' == data;
    } else {
      assert data' == data[i - ARGS := x];
      SumUpdate(data, i - ARGS, x);
    }
    if i != 3 {
      OneByteShows(ArgsSum(command, mem), mem[i], x);
    }
  }

  ghost predicate AnsweredArgs(r: Reply, command: nat, insize: nat) {
    r.delay < 100_000 && r.result == 0 && AcceptsArgs(command, r.mem, insize)
  }

  /** An EC that serves `f` over version 1. */
  ghost predicate ServesArgs(ec: Request -> Reply, f: Decoded -> seq<byte>) {
    forall rq: Request :: DecodeArgs(rq).Some? ==>
      var data, r := f(DecodeArgs(rq).value), ec(rq);
      && |data| <= EC_HOST_PARAM_SIZE
      && r.delay < 100_000 && r.result == 0 && BitAnd(r.mem[0], 2) != 0
      && r.mem[..ARGS + |data|] == ArgsResponse(rq.command, r.mem[0], r.mem[1], data)
  }

  lemma ExchangeV1(ec: Request -> Reply, f: Decoded -> seq<byte>, rq: Request, d: Decoded, insize: nat)
    requires ServesArgs(ec, f) && DecodeArgs(rq) == Some(d)
    ensures AnsweredArgs(ec(rq), rq.command, insize) <==> |f(d)| <= insize
    ensures var m := ec(rq).mem; m[ARGS..ARGS + m[2]] == f(d)
  {
    var m := ec(rq).mem;
    ArgsResponseAccepted(m, rq.command, m[0], m[1], f(d), |f(d)|);
  }

  /** As WriteBytes, but gives up at the first access that fails. */
  method WriteAll(ports: Ports, addr: int, s: seq<byte>) returns (err: bool)
    requires EC_LPC_ADDR_HOST_PACKET <= addr && addr + |s| <= EC_LPC_ADDR_HOST_PACKET + WINDOW
    modifies ports`mem, ports`writes
    ensures err <==> !NoneLost(ports.lost, old(ports.writes), |s|)
    ensures !err ==>
              var at := addr - EC_LPC_ADDR_HOST_PACKET;
              && ports.writes == old(ports.writes) + |s|
              && ports.mem == old(ports.mem)[..at] + s + old(ports.mem)[at + |s|..]
  {
    var at := addr - EC_LPC_ADDR_HOST_PACKET;
    for i := 0 to |s|
      invariant ports.writes == old(ports.writes) + i && NoneLost(ports.lost, old(ports.writes), i)
      invariant ports.mem == old(ports.mem)[..at] + s[..i] + old(ports.mem)[at + i..]
    {
      err := ports.Write8(addr + i, s[i]);
      if err {
        return;
      }
      OneMoreWritten(old(ports.mem), at, s, i);
    }
    return false;
  }

  lemma OneMoreWritten(was: Memory, at: nat, s: seq<byte>, i: nat)
    requires i < |s| && at + |s| <= WINDOW
    ensures (was[..at] + s[..i] + was[at + i..])[at + i := s[i]] == was[..at] + s[..i + 1] + was[at + i + 1..]
  {}

  /** At most one request is issued, only if the EC becomes ready in time and no write is lost, and exactly then
      if no read fails. 0 only if it was issued and the exchange went well, and exactly then if no read fails;
      then the payload is in `indata`, and nothing else of it has changed. */
  method CommandV1(ports: Ports, command: byte, version: byte, indata: array<byte>, insize: nat, outdata: seq<byte>)
    returns (ret: int)
    requires insize <= indata.Length && |outdata| <= EC_HOST_PARAM_SIZE
    modifies ports, indata
    ensures Untouched(indata[..], old(indata[..]), insize)
    ensures old(ports.busy) >= 100_000 ==> ret != 0 && ports.requests == old(ports.requests)
    ensures if ports.requests == old(ports.requests) then ret != 0
            else exists rq :: DecodeArgs(rq) == Some(Decoded(command, version, outdata))
                              && ports.requests == old(ports.requests) + [rq]
                              && (ret == 0 ==> AnsweredArgs(ports.ec(rq), command, insize))
                              && (ports.reliable && AnsweredArgs(ports.ec(rq), command, insize) ==> ret == 0)
                              && (ret == 0 ==> var m := ports.ec(rq).mem;
                                               Received(indata[..], old(indata[..]), m[ARGS..ARGS + m[2]]))
    ensures ports.requests != old(ports.requests) ==> NoneLost(ports.lost, old(ports.writes), |outdata| + ARGS + 1)
    ensures ports.reliable && old(ports.busy) < 100_000 && NoneLost(ports.lost, old(ports.writes), |outdata| + ARGS + 1) ==>
              ports.requests != old(ports.requests)
  {
    var late := WaitForEc(ports, TIMEOUT_USEC);
    if late != 0 {
      return -1;
    }
    var err := WriteArgs(ports, command, version, outdata);
    if err {
      return -1;
    }
    ghost var rq := Request(command, ports.mem);
    err := ports.WriteCommand(command);
    if err {
      return -1;
    }
    assert DecodeArgs(rq) == Some(Decoded(command, version, outdata));
    ret := ReadResponseV1(ports, command, indata, insize);
  }

  method WriteArgs(ports: Ports, command: byte, version: byte, outdata: seq<byte>) returns (err: bool)
    requires |outdata| <= EC_HOST_PARAM_SIZE
    modifies ports`mem, ports`writes
    ensures err <==> !NoneLost(ports.lost, old(ports.writes), |outdata| + ARGS)
    ensures !err ==> ports.writes == old(ports.writes) + |outdata| + ARGS
    ensures !err ==> DecodeArgs(Request(command, ports.mem)) == Some(Decoded(command, version, outdata))
  {
    hide Sum;
    err := WriteAll(ports, EC_LPC_ADDR_HOST_PARAM, outdata);
    if err {
      return;
    }
    ghost var mem1 := ports.mem;
    var csum := SumUp(outdata, command + EC_HOST_ARGS_FLAG_FROM_HOST + version + |outdata|);
    var args: seq<byte> := [EC_HOST_ARGS_FLAG_FROM_HOST, version, |outdata|, csum % 256];
    err := WriteAll(ports, EC_LPC_ADDR_HOST_ARGS, args);
    if err {
      return;
    }
    ArgsInPlace(ports.mem, mem1, args, outdata);
  }

  lemma ArgsInPlace(mem2: Memory, mem1: Memory, args: seq<byte>, outdata: seq<byte>)
    requires |args| == ARGS && args[2] == |outdata| && ARGS + |outdata| <= WINDOW
    requires mem1[ARGS..ARGS + |outdata|] == outdata && mem2 == args + mem1[ARGS..]
    ensures mem2[0] == args[0] && mem2[1] == args[1] && mem2[2] == args[2] && mem2[3] == args[3]
    ensures mem2[ARGS..ARGS + |outdata|] == outdata
  {
    assert mem2[ARGS..ARGS + |outdata|] == mem1[ARGS..ARGS + |outdata|];
  }

  /** The second half of cros_ec_command_lpc_v1, from the second wait on. */
  method ReadResponseV1(ports: Ports, command: byte, indata: array<byte>, insize: nat) returns (ret: int)
    requires insize <= indata.Length
    modifies ports`busy, indata
    ensures Untouched(indata[..], old(indata[..]), insize)
    ensures ret == 0 ==> old(ports.busy) < 100_000 && ports.result == 0 && AcceptsArgs(command, ports.mem, insize)
                         && Received(indata[..], old(indata[..]), ports.mem[ARGS..ARGS + ports.mem[2]])
    ensures ports.reliable && old(ports.busy) < 100_000 && ports.result == 0 && AcceptsArgs(command, ports.mem, insize) ==>
              ret == 0
  {
    var late := WaitForEc(ports, TIMEOUT_USEC);
    if late != 0 {
      return -1;
    }
    var err, ecResponse := ports.ReadResult();
    if err {
      return -1;
    }
    if ecResponse != 0 {
      return -1;
    }
    var args, sum;
    err, args, sum := ReadHeader(ports, EC_LPC_ADDR_HOST_ARGS, ARGS);
    if err {
      return -1;
    }
    if BitAnd(args[0], EC_HOST_ARGS_FLAG_TO_HOST) == 0 {
      return -1;
    }
    if args[2] > insize {
      return -1;
    }
    var size := args[2];
    err, sum := ReadData(ports, EC_LPC_ADDR_HOST_PARAM, indata, size);
    if err {
      return -1;
    }
    var csum: int := command + args[0] + args[1] + args[2] + sum;
    if args[3] != csum % 256 {
      return -1;
    }
    return ecResponse;
  }
}
