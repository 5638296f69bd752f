/** Host commands to the Chrome EC over I2C, drivers/google/cros_ec_i2c.c: new-style and old-style packets. */
module CrosEcI2c {
  import opened Basics
  import opened Checksums

  const EC_CMD_VERSION0 := 0xdc
  const EC_HOST_PARAM_SIZE := 0xfc

  // ----- Requests ---------------------------------------------------------------------------

  /** Version byte, command, length, payload, and the sum of all these. */
  function NewRequest(command: byte, version: nat, data: seq<byte>): seq<byte>
    requires |data| < 256
  {
    var head: seq<byte> := [(EC_CMD_VERSION0 + version) % 256, command, |data|];
    head + data + [Sum(head + data) % 256]
  }

  /** The command alone, or command, payload and the sum of the payload. */
  function OldRequest(command: byte, data: seq<byte>): seq<byte> {
    if data == [] then [command] else [command] + data + [Sum(data) % 256]
  }

  function RequestBytes(command: byte, version: nat, data: seq<byte>): seq<byte>
    requires |data| < 256
  {
    if version != 0 then NewRequest(command, version, data) else OldRequest(command, data)
  }

  datatype Decoded = Decoded(command: byte, version: int, data: seq<byte>)

  /** The request as an EC reads it. A first byte below 0xdc is an old-style command. */
  function Decode(rq: seq<byte>): Option<Decoded> {
    if |rq| == 0 then None
    else if rq[0] >= 0xdc then
      if |rq| < 4 || |rq| != 4 + (rq[2] as int) || rq[|rq| - 1] != Sum(rq[..|rq| - 1]) % 256 then None
      else Some(Decoded(rq[1], rq[0] - 0xdc, rq[3..|rq| - 1]))
    else if |rq| == 1 then Some(Decoded(rq[0], 0, []))
    else if rq[|rq| - 1] != Sum(rq[1..|rq| - 1]) % 256 then None
    else Some(Decoded(rq[0], 0, rq[1..|rq| - 1]))
  }

  /** What the host sends is what the EC reads, as long as the version fits its byte and an old-style
      command stays below the version bytes. */
  lemma RequestDecodes(command: byte, version: nat, data: seq<byte>)
    requires |data| <= EC_HOST_PARAM_SIZE
    requires if version != 0 then version < 256 - EC_CMD_VERSION0 else command < EC_CMD_VERSION0
    ensures Decode(RequestBytes(command, version, data)) == Some(Decoded(command, version, data))
  {
    var rq := RequestBytes(command, version, data);
    if version != 0 {
      var head: seq<byte> := [(EC_CMD_VERSION0 + version) % 256, command, |data|];
      assert rq[..|rq| - 1] == head + data;
      assert rq[3..|rq| - 1] == data;
    } else if data != [] {
      assert rq[1..|rq| - 1] == data;
    }
  }

  // ----- Responses --------------------------------------------------------------------------

  function ResponseLength(version: nat, insize: nat): nat {
    if version != 0 then 3 + insize else if insize != 0 then insize + 2 else 1
  }

  predicate AcceptsNew(resp: seq<byte>, insize: nat)
    requires |resp| == 3 + insize
  {
    resp[0] == 0 && resp[1] == insize && resp[insize + 2] == Sum(resp[..insize + 2]) % 256
  }

  predicate SumOkOld(resp: seq<byte>, insize: nat)
    requires insize > 0 && |resp| == insize + 2
  {
    resp[insize + 1] == Sum(resp[1..insize + 1]) % 256
  }

  /** A response as a new-style EC sends it is accepted. */
  lemma NewResponseAccepted(data: seq<byte>)
    requires |data| < 256
    ensures var head: seq<byte> := [0, |data|] + data; AcceptsNew(head + [Sum(head) % 256], |data|)
    ensures var head: seq<byte> := [0, |data|] + data; (head + [Sum(head) % 256])[2..2 + |data|] == data
  {
    var head: seq<byte> := [0, |data|] + data;
    assert (head + [Sum(head) % 256])[..|data| + 2] == head;
  }

  /** In a new-style response no single changed byte, wherever it is, goes unnoticed. */
  lemma NewCorruptionDetected(resp: seq<byte>, insize: nat, i: nat, x: byte)
    requires |resp| == 3 + insize && AcceptsNew(resp, insize) && i < |resp| && x != resp[i]
    ensures !AcceptsNew(resp[i := x], insize)
  {
    var n := insize + 2;
    if i < n {
      assert resp[i := x][..n] == resp[..n][i := x];
      SumUpdate(resp[..n], i, x);
      OneByteShows(Sum(resp[..n]), resp[i], x);
    } else {
      assert resp[i := x][..n] == resp[..n];
    }
  }

  /** In an old-style response payload and checksum are protected, the result code is not. */
  lemma OldCorruptionDetected(resp: seq<byte>, insize: nat, i: nat, x: byte)
    requires insize > 0 && |resp| == insize + 2 && SumOkOld(resp, insize) && i < |resp| && x != resp[i]
    ensures SumOkOld(resp[i := x], insize) <==> i == 0
  {
    var n := insize + 1;
    if i == 0 || i == n {
      assert resp[i := x][1..n] == resp[1..n];
    } else {
      assert resp[i := x][1..n] == resp[1..n][i - 1 := x];
      SumUpdate(resp[1..n], i - 1, x);
      OneByteShows(Sum(resp[1..n]), resp[i], x);
    }
  }

  // ----- The exchange -----------------------------------------------------------------------

  /** A transfer on the bus: the bytes written and how many are read back; None if it fails. */
  type Bus = (seq<byte>, nat) -> Option<seq<byte>>

  ghost predicate Sane(bus: Bus) {
    forall rq, n :: bus(rq, n).Some? ==> |bus(rq, n).value| == n
  }

  /** What the caller gets for a reply of the bus: the return value, and the payload if any is copied. */
  function Outcome(version: nat, insize: nat, reply: Option<seq<byte>>): (int, seq<byte>)
    requires reply.Some? ==> |reply.value| == ResponseLength(version, insize)
  {
    if reply.None? then (-1, [])
    else
      var resp := reply.value;
      if version != 0 then
        if AcceptsNew(resp, insize) then (0, resp[2..2 + insize]) else (if resp[0] != 0 then resp[0] else -1, [])
      else if insize == 0 then (resp[0], [])
      else if SumOkOld(resp, insize) then (resp[0], resp[1..1 + insize])
      else (-1, [])
  }

  /** What that comes to. A new-style answer gives 0 and the payload, an error its code and nothing. */
  lemma NewOutcome(version: nat, data: seq<byte>)
    requires version != 0 && |data| < 256
    ensures ResponseLength(version, |data|) == |data| + 3
    ensures var head: seq<byte> := [0, |data|] + data; Outcome(version, |data|, Some(head + [Sum(head) % 256])) == (0, data)
  {
    NewResponseAccepted(data);
  }

  lemma NewError(version: nat, insize: nat, resp: seq<byte>)
    requires version != 0 && |resp| == insize + 3 && resp[0] != 0
    ensures Outcome(version, insize, Some(resp)) == (resp[0] as int, [])
  {}

  /** One changed byte of a good new-style answer: a changed result is taken for an error code, and everything
      else is an error of the transfer. */
  lemma NewCorrupted(version: nat, insize: nat, resp: seq<byte>, i: nat, x: byte)
    requires version != 0 && |resp| == insize + 3 && Outcome(version, insize, Some(resp)).0 == 0
    requires i < |resp| && x != resp[i]
    ensures Outcome(version, insize, Some(resp[i := x])) == (if i == 0 then x as int else -1, [])
  {
    NewCorruptionDetected(resp, insize, i, x);
  }

  /** An old-style answer gives its result, which may be an error, and the payload in any case. */
  lemma OldOutcome(result: byte, data: seq<byte>)
    ensures data == [] ==> ResponseLength(0, 0) == 1 && Outcome(0, 0, Some([result])) == (result as int, [])
    ensures data != [] ==> && ResponseLength(0, |data|) == |data| + 2
                           && Outcome(0, |data|, Some([result] + data + [Sum(data) % 256])) == (result as int, data)
  {
    var resp := [result] + data + [Sum(data) % 256];
    assert resp[1..|data| + 1] == data;
  }

  /** One changed byte: only a changed result goes unnoticed. */
  lemma OldCorrupted(insize: nat, result: byte, data: seq<byte>, i: nat, x: byte)
    requires insize == |data| > 0 && i < |data| + 2
    requires x != ([result] + data + [Sum(data) % 256])[i]
    ensures Outcome(0, insize, Some(([result] + data + [Sum(data) % 256])[i := x])) == if i == 0 then (x as int, data) else (-1, [])
  {
    var resp := [result] + data + [Sum(data) % 256];
    assert resp[1..insize + 1] == data;
    OldCorruptionDetected(resp, insize, i, x);
    if i == 0 {
      assert resp[i := x][1..insize + 1] == data;
    }
  }

  /** A transfer that fails gives -1. */
  lemma NoReply(version: nat, insize: nat)
    ensures Outcome(version, insize, None) == (-1, [])
  {}

  /** The bytes of the requests. */
  lemma RequestIs(command: byte, version: nat, data: seq<byte>)
    requires |data| < 256 && version < 256 - 0xdc
    ensures var rq := RequestBytes(command, version, data);
            if version > 0 then
              && |rq| == 4 + |data| && rq[..3] == [0xdc + version, command, |data|] && rq[3..|rq| - 1] == data
              && rq[|rq| - 1] == Sum(rq[..|rq| - 1]) % 256
            else if data == [] then rq == [command]
            else |rq| == |data| + 2 && rq[0] == command && rq[1..|rq| - 1] == data && rq[|rq| - 1] == Sum(data) % 256
  {
    var rq := RequestBytes(command, version, data);
    if version > 0 {
      var head: seq<byte> := [0xdc + version, command, |data|];
      assert rq[..|rq| - 1] == head + data;
    }
  }

  method FillRequest(command: byte, version: nat, outdata: seq<byte>) returns (req: array<byte>)
    requires |outdata| <= EC_HOST_PARAM_SIZE
    ensures fresh(req) && req[..] == RequestBytes(command, version, outdata)
  {
    hide Sum;
    var outsize := |outdata|;
    if version != 0 {
      req := new byte[4 + outsize](_ => 0);
      req[0] := (EC_CMD_VERSION0 + version) % 256;
      req[1] := command;
      req[2] := outsize;
      forall i | 0 <= i < outsize {
        req[3 + i] := outdata[i];
      }
      var csum := Rolling8Csum(req, req.Length - 1);
      req[req.Length - 1] := csum;
      ghost var head: seq<byte> := [(EC_CMD_VERSION0 + version) % 256, command, |outdata|];
      assert req[..req.Length - 1] == head + outdata;
    } else if outsize != 0 {
      req := new byte[outsize + 2](_ => 0);
      forall i | 0 <= i < outsize {
        req[1 + i] := outdata[i];
      }
      req[req.Length - 1] := SumOf(outdata);
      req[0] := command;
    } else {
      req := new byte[1](_ => 0);
      req[0] := command;
    }
  }

  /** rolling8_csum of the caller's payload */
  function SumOf(data: seq<byte>): byte {
    Sum(data) % 256
  }

  /** Return value and payload are as `out` says, and nothing else of the caller's buffer has changed. */
  predicate Delivered(ret: int, out: (int, seq<byte>), now: seq<byte>, was: seq<byte>) {
    && ret == out.0 && |out.1| <= |now| == |was|
    && forall k :: 0 <= k < |now| ==> now[k] == if k < |out.1| then out.1[k] else was[k]
  }

  /** Follows Outcome; nothing but the payload is written to the caller's buffer. */
  method CommandI2c(bus: Bus, command: byte, version: nat, indata: array<byte>, insize: nat, outdata: seq<byte>)
    returns (ret: int)
    requires Sane(bus) && insize <= indata.Length
    modifies indata
    ensures insize > 0xfc || |outdata| > 0xfc ==> ret == -1 && indata[..] == old(indata[..])
    ensures insize <= 0xfc && |outdata| <= 0xfc ==>
              Delivered(ret, Outcome(version, insize, bus(RequestBytes(command, version, outdata), ResponseLength(version, insize))),
                        indata[..], old(indata[..]))
  {
    if insize > EC_HOST_PARAM_SIZE || |outdata| > EC_HOST_PARAM_SIZE {
      return -1;
    }
    hide RequestBytes, AcceptsNew, SumOkOld;
    var req := FillRequest(command, version, outdata);
    var reply := bus(req[..], ResponseLength(version, insize));
    if reply.None? {
      return -1;
    }
    var resp := new byte[|reply.value|](i requires 0 <= i < |reply.value| => reply.value[i]);
    assert resp[..] == reply.value;
    if version != 0 {
      ret := ReceiveNew(resp, indata, insize);
    } else {
      ret := ReceiveOld(resp, indata, insize);
    }
  }

  /** The response to a new-style command. */
  method ReceiveNew(resp: array<byte>, indata: array<byte>, insize: nat) returns (ret: int)
    requires resp.Length == 3 + insize && insize <= indata.Length && resp != indata
    modifies indata
    ensures Delivered(ret, Outcome(1, insize, Some(resp[..])), indata[..], old(indata[..]))
  {
    hide Sum;
    if resp[0] != 0 {
      return resp[0];
    }
    var len: nat := resp[1];
    if len != insize {
      return -1;
    }
    var csum := Rolling8Csum(resp, 2 + len);
    assert resp[..2 + len] == resp[..][..insize + 2];
    if csum != resp[resp.Length - 1] {
      return -1;
    }
    forall i | 0 <= i < insize {
      indata[i] := resp[2 + i];
    }
    assert resp[..] == old(resp[..]);
    return 0;
  }

  /** The response to an old-style command. */
  method ReceiveOld(resp: array<byte>, indata: array<byte>, insize: nat) returns (ret: int)
    requires resp.Length == ResponseLength(0, insize) && insize <= indata.Length && resp != indata
    modifies indata
    ensures Delivered(ret, Outcome(0, insize, Some(resp[..])), indata[..], old(indata[..]))
  {
    hide Sum;
    ret := resp[0];
    if insize != 0 {
      ghost var data := resp[1..1 + insize];
      assert resp[..][1..1 + insize] == data;
      var csum: int := 0;
      NothingAdded(data);
      for i := 0 to insize
        invariant csum == Sum(data[..i]) && resp[..] == old(resp[..]) && indata[..] == old(indata[..])
      {
        SumUpTo(data, i);
        csum := csum + resp[i + 1];
      }
      assert data[..insize] == data;
      if csum % 256 != resp[resp.Length - 1] {
        return -1;
      }
      forall i | 0 <= i < insize {
        indata[i] := resp[1 + i];
      }
      assert resp[..] == old(resp[..]);
    }
  }

  lemma NothingAdded(data: seq<byte>)
    ensures Sum(data[..0]) == 0
  {}
}
