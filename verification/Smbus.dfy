/** SMBus access through Linux I2C devices, intf/i2c.c: the handle table, register reads with a sticky
    fallback, and chunked writes with 16-bit offsets. */
module Smbus {
  import opened Basics

  const I2C_HANDLE_MAX := 64
  const SPD_MAX_LENGTH := 384
  const BLOCK_WRITE_RETRIES := 32

  // ----- Handle table -----------------------------------------------------------------------

  datatype Handle = Handle(bus: int, addr: int, fd: int)

  const CLOSED := Handle(-1, -1, -1)

  /** The 256 registers of a device. */
  type Registers = r: seq<byte> | |r| == 256 witness seq(256, _ => 0)

  /** A bus access: a word or a byte read of a register, and whether it succeeded. */
  datatype Access = Access(word: bool, command: byte, ok: bool)

  /** A block write: the 16-bit register offset it addresses, the bytes, and the count it was answered with. */
  datatype Chunk = Chunk(reg: nat, data: seq<byte>, count: int)

  /** An attempt to open a device; `fd` is negative if it failed. */
  datatype Opening = Opening(bus: int, addr: int, fd: int)

  class I2c {
    const table: array<Handle>       // i2c_handles
    var num: nat                     // i2c_handle_num
    var readWords: bool              // static in smbus_read_reg
    const device: (int, int) -> Registers
    ghost var openings: seq<Opening>
    ghost var accesses: seq<Access>
    ghost var chunks: seq<Chunk>

    /** Open handles, each for a device of its own. */
    ghost predicate Valid()
      reads this, table
    {
      && table.Length == I2C_HANDLE_MAX && num <= I2C_HANDLE_MAX
      && (forall i :: 0 <= i < num ==> table[i].fd >= 0)
      && (forall i, j :: 0 <= i < j < num ==> !(table[i].bus == table[j].bus && table[i].addr == table[j].addr))
    }

    ghost predicate Open(bus: int, addr: int, handle: int)
      reads this, table
    {
      0 <= handle < num && handle < table.Length && table[handle].bus == bus && table[handle].addr == addr
    }

    ghost predicate IsOpen(bus: int, addr: int)
      reads this, table
    {
      exists h :: Open(bus, addr, h)
    }

    constructor (device: (int, int) -> Registers)
      ensures Valid() && num == 0 && readWords && fresh(table)
      ensures this.device == device
    {
      this.device := device;
      table := new Handle[I2C_HANDLE_MAX](_ => CLOSED);
      num, readWords := 0, true;
      openings, accesses, chunks := [], [], [];
    }

    /** open and ioctl(I2C_SLAVE_FORCE); negative if one of them fails */
    method OpenDevice(bus: int, addr: int) returns (fd: int)
      modifies this`openings
      ensures openings == old(openings) + [Opening(bus, addr, fd)]
    {
      fd := *;
      openings := openings + [Opening(bus, addr, fd)];
    }

    /** The handle of the device: the one it has, or else a new one if it can be opened. A full table yields
        -1 for every device, open ones included. */
    method OpenDev(bus: int, addr: int) returns (handle: int)
      requires Valid()
      modifies this`num, this`openings, table
      ensures Valid() && (handle == -1 || handle >= 0)
      ensures OpenedIf(handle != -1, old(num), old(IsOpen(bus, addr)), bus, addr, old(openings), openings)
      ensures forall h :: old(num) < I2C_HANDLE_MAX && old(Open(bus, addr, h)) ==> handle == h
      ensures handle != -1 ==> Open(bus, addr, handle)
      ensures forall i :: 0 <= i < old(num) ==> table[i] == old(table[i])
      ensures num == if old(num) < I2C_HANDLE_MAX && handle == old(num) then old(num) + 1 else old(num)
    {
      if num >= I2C_HANDLE_MAX {
        return -1;
      }
      handle := 0;
      while handle < num
        invariant 0 <= handle <= num
        invariant forall i :: 0 <= i < handle ==> !(table[i].bus == bus && table[i].addr == addr)
      {
        if table[handle].bus == bus && table[handle].addr == addr && table[handle].fd >= 0 {
          assert old(Open(bus, addr, handle));
          return;
        }
        handle := handle + 1;
      }
      assert !IsOpen(bus, addr);
      var fd := OpenDevice(bus, addr);
      if fd < 0 {
        return -1;
      }
      table[num] := Handle(bus, addr, fd);
      handle := num;
      num := num + 1;
    }

    /** i2c_close_dev: all handles */
    method CloseDev()
      requires Valid()
      modifies this`num, table
      ensures Valid() && num == 0
      ensures forall i :: 0 <= i < old(num) ==> table[i] == CLOSED
    {
      for i := 0 to num
        invariant forall k :: 0 <= k < i ==> table[k] == CLOSED
      {
        table[i] := CLOSED;
      }
      num := 0;
    }

    // ----- Reading ----------------------------------------------------------------------------

    /** i2c_smbus_read_word_data: the register's byte is the low one, the byte of the next register the high
        one; negative if it fails. The register number is one byte. */
    method ReadWord(regs: Registers, reg: nat) returns (r: int)
      modifies this`accesses
      ensures accesses == old(accesses) + [Access(true, reg % 256, r >= 0)]
      ensures r >= 0 ==> r == regs[reg % 256] as int + 256 * (regs[(reg + 1) % 256] as int)
    {
      var ok: bool := *;
      var low: int, high: int := regs[reg % 256], regs[(reg + 1) % 256];
      r := if ok then low + 256 * high else -1;
      accesses := accesses + [Access(true, reg % 256, ok)];
    }

    method ReadByte(regs: Registers, reg: nat) returns (r: int)
      modifies this`accesses
      ensures accesses == old(accesses) + [Access(false, reg % 256, r >= 0)]
      ensures r >= 0 ==> r == regs[reg % 256]
    {
      var ok: bool := *;
      r := if ok then regs[reg % 256] else -1;
      accesses := accesses + [Access(false, reg % 256, ok)];
    }

    /** Like reading byte by byte, whatever accesses fail: the bytes counted by the result are those of the
        registers, the rest of the first `length` bytes are 0. It stops short only at a byte read that
        fails; a failed word read only turns word reads off, for good. */
    method SmbusReadReg(bus: int, addr: int, reg: nat, length: int, data: array<byte>) returns (n: int)
      requires Valid() && length <= data.Length && data as object != table
      modifies this`num, this`openings, this`readWords, this`accesses, table, data
      ensures Valid()
      ensures n == -1 || (1 <= length <= 384 && 0 <= n <= length)
      ensures if 1 <= length <= 384 then
                OpenedIf(n != -1, old(num), old(IsOpen(bus, addr)), bus, addr, old(openings), openings)
              else n == -1 && openings == old(openings)
      ensures n == -1 ==> data[..] == old(data[..]) && accesses == old(accesses)
      ensures forall k :: 0 <= k < n ==> data[k] == device(bus, addr)[(reg + k) % 256]
      ensures n >= 0 ==> forall k :: n <= k < length ==> data[k] == 0
      ensures forall k :: length <= k < data.Length && k >= 0 ==> data[k] == old(data[k])
      ensures 0 <= n < length ==> accesses != [] && accesses[|accesses| - 1] == Access(false, (reg + n) % 256, false)
      ensures n == length ==> NoByteFails(accesses, |old(accesses)|)
      ensures |old(accesses)| <= |accesses| && (readWords <==> old(readWords) && NoWordFails(accesses, |old(accesses)|))
    {
      if length < 1 || length > SPD_MAX_LENGTH {
        return -1;
      }
      var handle := OpenDev(bus, addr);
      if handle < 0 {
        return -1;
      }
      ghost var before, tried := data[..], openings;
      for i := 0 to length
        invariant forall k :: 0 <= k < i ==> data[k] == 0
        invariant forall k :: i <= k < data.Length ==> data[k] == before[k]
        invariant Valid() && accesses == old(accesses) && readWords == old(readWords) && openings == tried
      {
        data[i] := 0;
      }
      n := ReadRegisters(device(bus, addr), reg, length, data);
    }

    /** The loop of smbus_read_reg, on a buffer cleared up to `length`. */
    method ReadRegisters(regs: Registers, reg: nat, length: nat, data: array<byte>) returns (n: nat)
      requires length <= data.Length && forall k :: 0 <= k < length ==> data[k] == 0
      modifies this`readWords, this`accesses, data
      ensures n <= length
      ensures forall k :: 0 <= k < n ==> data[k] == regs[(reg + k) % 256]
      ensures forall k :: n <= k < length ==> data[k] == 0
      ensures forall k :: length <= k < data.Length ==> data[k] == old(data[k])
      ensures n < length ==> accesses != [] && accesses[|accesses| - 1] == Access(false, (reg + n) % 256, false)
      ensures |old(accesses)| <= |accesses| && (readWords <==> old(readWords) && NoWordFails(accesses, |old(accesses)|))
      ensures n == length ==> NoByteFails(accesses, |old(accesses)|)
    {
      hide NoWordFails, NoByteFails;
      ghost var from := |accesses|;
      NothingYet(accesses);
      n := 0;
      while n < length
        invariant n <= length && from <= |accesses|
        invariant forall k :: 0 <= k < n ==> data[k] == regs[(reg + k) % 256]
        invariant forall k :: n <= k < length ==> data[k] == 0
        invariant forall k :: length <= k < data.Length ==> data[k] == old(data[k])
        invariant NoByteFails(accesses, from) && (readWords <==> old(readWords) && NoWordFails(accesses, from))
        decreases readWords, length - n
      {
        LogGrows(accesses, from);
        if readWords && n < length - 1 {
          var result := ReadWord(regs, reg + n);
          if result < 0 {
            readWords := false;
            continue;
          }
          data[n] := result % 256;
          data[n + 1] := result / 256;
          n := n + 2;
        } else {
          var result := ReadByte(regs, reg + n);
          if result < 0 {
            break;
          }
          data[n] := result;
          n := n + 1;
        }
      }
    }

    // ----- Writing ----------------------------------------------------------------------------

    /** i2c_smbus_write_i2c_block_data, as a device with 16-bit offsets takes it: the command is the high byte
        of the offset, the first byte of the block the low one. The answer of the driver can be any number. */
    method BlockWrite(command: byte, block: array<byte>, length: nat) returns (count: int)
      requires 1 <= length <= block.Length
      modifies this`chunks
      ensures chunks == old(chunks) + [Chunk(256 * command + block[0], block[1..length], count)]
    {
      count := *;
      chunks := chunks + [Chunk(256 * command + block[0], block[1..length], count)];
    }

    /** smbus_write16_buf: at most 31 bytes at a 16-bit offset, and the wait for the device to recover, whose
        outcome does not change the result. */
    method Write16Buf(reg: nat, dp: seq<byte>) returns (result: int)
      modifies this`chunks
      ensures chunks == old(chunks) + [Chunk(reg % 0x1_0000, if |dp| <= 31 then dp else dp[..31], result)]
    {
      var buf := new byte[32](_ => 0);
      buf[0] := reg % 256;
      var len := if |dp| < 31 then |dp| else 31;
      forall i | 0 <= i < len {
        buf[1 + i] := dp[i];
      }
      assert buf[1..len + 1] == dp[..len] && dp[..|dp|] == dp;
      HighAndLow(reg);
      result := BlockWrite((reg / 256) % 256, buf, len + 1);
      if result < 0 {
        return;
      }
      for i := 0 to BLOCK_WRITE_RETRIES
        invariant chunks == old(chunks) + [Chunk(reg % 0x1_0000, dp[..len], result)]
      {
        var recovered: bool := *;
        if recovered {
          return;
        }
      }
    }

    /** For length > 0, whatever the answers: the chunks sent cover data[..n] at reg..reg + n once each and
        were all fully acknowledged, but for one more that was not if n < length. */
    method Write16Dev(bus: int, addr: int, reg: nat, data: seq<byte>) returns (n: int, ghost acked: seq<Chunk>, ghost failed: seq<Chunk>)
      requires Valid()
      modifies this`num, this`openings, this`chunks, table
      ensures Valid()
      ensures OpenedIf(chunks != old(chunks), old(num), old(IsOpen(bus, addr)), bus, addr, old(openings), openings)
      ensures if chunks == old(chunks) then n == -1
              else if data == [] then chunks == old(chunks) + [Chunk(reg % 0x1_0000, [], n)]
              else Written(reg, data, n, acked, failed) && chunks == old(chunks) + acked + failed
    {
      acked, failed := [], [];
      var handle := OpenDev(bus, addr);
      if handle < 0 {
        return -1, acked, failed;
      }
      if data == [] {
        n := Write16Buf(reg, []);
        return;
      }
      n, acked, failed := WriteChunks(reg, data);
      WrittenSome(reg, data, n, acked, failed);
    }

    /** One call of smbus_write16_buf from the loop. */
    method SendChunk(reg: nat, data: seq<byte>, n: nat, len: nat, ghost acked: seq<Chunk>) returns (count: int, ghost c: Chunk)
      requires Sent(acked, reg, data, n) && 0 < len <= 31 && n + len <= |data| && (n % 32 == 0 || len == 1)
      modifies this`chunks
      ensures chunks == old(chunks) + [c]
      ensures if count == len then Sent(acked + [c], reg, data, n + len) else Written(reg, data, n, acked, [c])
    {
      count := Write16Buf(reg + n, data[n..n + len]);
      c := Chunk((reg + n) % 0x1_0000, data[n..n + len], count);
      OneMoreChunk(acked, reg, data, n, c);
    }

    /** The loop of smbus_write16_dev: 31 bytes, then 1, then 31 again. */
    method WriteChunks(reg: nat, data: seq<byte>) returns (n: nat, ghost acked: seq<Chunk>, ghost failed: seq<Chunk>)
      requires data != []
      modifies this`chunks
      ensures Written(reg, data, n, acked, failed) && chunks == old(chunks) + acked + failed
    {
      hide Sent, Written;
      n := 0;
      acked, failed := [], [];
      NothingSent(reg, data);
      ghost var start, pages := chunks, 0;
      while n < |data|
        invariant n <= |data| && (n == 32 * pages || n == |data|)
        invariant chunks == start + acked && failed == [] && Sent(acked, reg, data, n)
        decreases |data| - n
      {
        var len := if |data| - n < 31 then |data| - n else 31;
        var count, c := SendChunk(reg, data, n, len, acked);
        assert chunks == start + (acked + [c]);
        if count != len {
          failed := [c];
          return;
        }
        acked := acked + [c];
        n := n + count;
        if n == |data| {
          AllSent(reg, data, acked);
          return;
        }
        count, c := SendChunk(reg, data, n, 1, acked);
        assert chunks == start + (acked + [c]);
        if count != 1 {
          failed := [c];
          return;
        }
        acked := acked + [c];
        n := n + 1;
        pages := pages + 1;
      }
      AllSent(reg, data, acked);
    }
  }

  /** A device that is open and cannot be opened: the handles of 64 devices fill the table. */
  method FullTable(device: (int, int) -> Registers) returns (i2c: I2c, handle: int)
    ensures i2c.Valid() && i2c.Open(0, 0, 0) && handle == -1
  {
    i2c := new I2c(device);
    for i := 0 to I2C_HANDLE_MAX
      invariant fresh(i2c) && fresh(i2c.table) && i2c.table.Length == I2C_HANDLE_MAX
      invariant forall k :: 0 <= k < i ==> i2c.table[k] == Handle(k, 0, k)
    {
      i2c.table[i] := Handle(i, 0, i);
    }
    i2c.num := I2C_HANDLE_MAX;
    handle := i2c.OpenDev(0, 0);
  }

  /** `ok` exactly if there is a handle for the device: never with a full table, always if it is open, and else
      if opening it, once, has succeeded. */
  predicate OpenedIf(ok: bool, num: nat, isOpen: bool, bus: int, addr: int, was: seq<Opening>, now: seq<Opening>) {
    if num >= 64 then !ok && now == was
    else if isOpen then ok && now == was
    else && |now| == |was| + 1 && now == was + [now[|was|]]
         && now[|was|].bus == bus && now[|was|].addr == addr && (ok <==> now[|was|].fd >= 0)
  }

  predicate NoByteFails(log: seq<Access>, from: nat) {
    forall i :: from <= i < |log| ==> log[i].word || log[i].ok
  }

  predicate NoWordFails(log: seq<Access>, from: nat) {
    forall i :: from <= i < |log| ==> !log[i].word || log[i].ok
  }

  lemma NothingYet(log: seq<Access>)
    ensures NoWordFails(log, |log|) && NoByteFails(log, |log|)
  {}

  lemma LogGrows(log: seq<Access>, from: nat)
    requires from <= |log|
    ensures forall a :: NoWordFails(log + [a], from) <==> NoWordFails(log, from) && (!a.word || a.ok)
    ensures forall a :: NoByteFails(log + [a], from) <==> NoByteFails(log, from) && (a.word || a.ok)
  {
    forall a
      ensures NoWordFails(log + [a], from) <==> NoWordFails(log, from) && (!a.word || a.ok)
      ensures NoByteFails(log + [a], from) <==> NoByteFails(log, from) && (a.word || a.ok)
    {
      var log' := log + [a];
      assert log'[|log|] == a;
      assert forall i :: 0 <= i < |log| ==> log'[i] == log[i];
    }
  }

  function Bytes(cs: seq<Chunk>): seq<byte> {
    if cs == [] then [] else Bytes(cs[..|cs| - 1]) + cs[|cs| - 1].data
  }

  /** Chunk `i` starts where those before it end. */
  predicate ChunkAt(cs: seq<Chunk>, i: nat, reg: nat)
    requires i < |cs|
  {
    cs[i].reg == (reg + |Bytes(cs[..i])|) % 0x1_0000 && cs[i].data != []
  }

  /** The chunks, in order, are consecutive pieces of the data at consecutive offsets from `reg` on. */
  ghost predicate Tile(cs: seq<Chunk>, reg: nat, data: seq<byte>) {
    Bytes(cs) == data && forall i :: 0 <= i < |cs| ==> ChunkAt(cs, i, reg)
  }

  /** No byte of the chunk lies in another 32-byte page than its first. */
  predicate InPage(c: Chunk) {
    c.data != [] ==> c.reg / 32 == (c.reg + |c.data| - 1) / 32
  }

  /** These chunks brought the first `n` bytes to their place, each fully acknowledged; and if they started
      at the beginning of a page, none of them crosses into another. */
  ghost predicate Sent(cs: seq<Chunk>, reg: nat, data: seq<byte>, n: nat) {
    && n <= |data| && Tile(cs, reg, data[..n])
    && (forall c :: c in cs ==> c.count == |c.data|)
    && (reg % 32 == 0 ==> forall c :: c in cs ==> InPage(c))
  }

  ghost predicate Written(reg: nat, data: seq<byte>, n: int, acked: seq<Chunk>, failed: seq<Chunk>) {
    && 0 <= n <= |data| && Sent(acked, reg, data, n)
    && if n == |data| then failed == []
       else && |failed| == 1 && failed[0].reg == (reg + n) % 0x1_0000 && failed[0].count != |failed[0].data|
            && failed[0].data != [] && failed[0].data <= data[n..]
            && (reg % 32 == 0 ==> InPage(failed[0]))
  }

  lemma NothingSent(reg: nat, data: seq<byte>)
    ensures Sent([], reg, data, 0)
  {}

  lemma AllSent(reg: nat, data: seq<byte>, acked: seq<Chunk>)
    requires Sent(acked, reg, data, |data|)
    ensures Written(reg, data, |data|, acked, [])
  {}

  lemma WrittenSome(reg: nat, data: seq<byte>, n: nat, acked: seq<Chunk>, failed: seq<Chunk>)
    requires data != [] && Written(reg, data, n, acked, failed)
    ensures acked + failed != []
  {}

  /** With a driver that answers every block write with 0, nothing is ever reported as written. */
  lemma ZeroAnswers(reg: nat, data: seq<byte>, n: nat, acked: seq<Chunk>, failed: seq<Chunk>)
    requires Written(reg, data, n, acked, failed) && forall c :: c in acked ==> c.count == 0
    ensures n == 0 && acked == []
  {
    if acked != [] {
      ChunksNotEmpty(acked, 0, reg);
    }
  }

  lemma ChunksNotEmpty(cs: seq<Chunk>, i: nat, reg: nat)
    requires i < |cs| && ChunkAt(cs, i, reg)
    ensures cs[i] in cs && cs[i].data != []
  {}

  /** The next chunk, acknowledged or not. */
  lemma OneMoreChunk(cs: seq<Chunk>, reg: nat, data: seq<byte>, n: nat, c: Chunk)
    requires Sent(cs, reg, data, n) && n < |data| && n + |c.data| <= |data|
    requires c.data != [] && c.data == data[n..n + |c.data|] && c.reg == (reg + n) % 0x1_0000
    requires (n % 32 == 0 && |c.data| <= 31) || |c.data| == 1
    ensures c.count == |c.data| ==> Sent(cs + [c], reg, data, n + |c.data|)
    ensures c.count != |c.data| ==> Written(reg, data, n, cs, [c])
  {
    TileMore(cs, reg, data, n, c);
    PageOf(reg, n, c);
  }

  lemma TileMore(cs: seq<Chunk>, reg: nat, data: seq<byte>, n: nat, c: Chunk)
    requires n + |c.data| <= |data| && c.data != [] && c.data == data[n..n + |c.data|]
    requires Tile(cs, reg, data[..n]) && c.reg == (reg + n) % 0x1_0000
    ensures Tile(cs + [c], reg, data[..n + |c.data|])
  {
    var cs' := cs + [c];
    assert cs'[..|cs|] == cs;
    assert data[..n + |c.data|] == data[..n] + c.data;
    assert |Bytes(cs)| == n;
    forall i | 0 <= i < |cs'| ensures ChunkAt(cs', i, reg) {
      if i < |cs| {
        assert ChunkAt(cs, i, reg);
        assert cs'[..i] == cs[..i];
      }
    }
  }

  /** From an aligned offset the first 31 bytes of a page go in one chunk and the last in another. */
  lemma PageOf(reg: nat, n: nat, c: Chunk)
    requires c.reg == (reg + n) % 0x1_0000 && c.data != []
    requires (n % 32 == 0 && |c.data| <= 31) || |c.data| == 1
    ensures reg % 32 == 0 ==> InPage(c)
  {
    assert reg + n == 0x1_0000 * ((reg + n) / 0x1_0000) + c.reg;
    if |c.data| > 1 && reg % 32 == 0 {
      var q := reg / 32 + n / 32 - 2048 * ((reg + n) / 0x1_0000);
      assert c.reg == 32 * q;
    }
  }

  lemma HighAndLow(reg: nat)
    ensures 256 * ((reg / 256) % 256) + reg % 256 == reg % 0x1_0000
  {}
}
