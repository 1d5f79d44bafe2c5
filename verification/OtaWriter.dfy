/** The writer object: one block of memory in front of a flash device. */
module OtaWriter {
  import opened Basics
  import opened OtaBytes
  import W = OtaWriterSpec

  /** The flash area, as the read and write callbacks see it; accesses outside it fail. */
  class Flash {
    const blockSize: nat
    var mem: Bytes
    /** Every write so far: where it started and how long it was. */
    ghost var log: seq<(nat, nat)>

    ghost predicate Valid()
      reads this
    {
      && 0 < blockSize < 0x1_0000
      && forall e | e in log :: e.0 % blockSize == 0 && e.1 <= blockSize
    }

    constructor (mem: Bytes, blockSize: nat)
      requires 0 < blockSize < 0x1_0000
      ensures Valid() && this.mem == mem && this.blockSize == blockSize
    {
      this.mem := mem;
      this.blockSize := blockSize;
      log := [];
    }

    method Read(at: nat, len: nat) returns (ok: bool, data: Bytes)
      ensures ok <==> at + len <= |mem|
      ensures ok ==> data == mem[at..at + len]
    {
      ok := at + len <= |mem|;
      data := if ok then mem[at..at + len] else [];
    }

    method Write(at: nat, data: Bytes) returns (ok: bool)
      requires Valid() && at % blockSize == 0 && |data| <= blockSize
      modifies this
      ensures Valid()
      ensures ok <==> at + |data| <= |old(mem)|
      ensures mem == if ok then Overlay(old(mem), at, data) else old(mem)
    {
      ok := at + |data| <= |mem|;
      if ok {
        mem := Overlay(mem, at, data);
        log := log + [(at, |data|)];
      }
    }
  }

  class PackWriter {
    const flash: Flash
    /** Whether the heap can give the writer its block. */
    const heap: bool
    var offset: nat
    var offsetFlag: bool
    var buffer: array?<Byte>
    var storedLen: nat

    ghost predicate Shaped()
      reads this
    {
      && (buffer == null ==> storedLen == 0)
      && (buffer != null ==> buffer.Length == flash.blockSize && storedLen <= buffer.Length)
    }

    ghost function State(): W.Writer
      reads this, buffer, flash
      requires Shaped()
    {
      W.Writer(flash.mem, offsetFlag, offset, if buffer == null then [] else buffer[..storedLen])
    }

    ghost predicate Valid()
      reads this, buffer, flash
    {
      flash.Valid() && Shaped() && State().Valid(flash.blockSize)
    }

    constructor (flash: Flash, heap: bool)
      requires flash.Valid()
      ensures Valid() && this.flash == flash && this.heap == heap && buffer == null
      ensures State() == W.Writer(flash.mem, false, 0, [])
    {
      this.flash := flash;
      this.heap := heap;
      offset := 0;
      offsetFlag := false;
      buffer := null;
      storedLen := 0;
    }

    method WriteStoredData() returns (ok: bool)
      requires Valid() && storedLen > 0
      modifies this`offsetFlag, flash
      ensures ok && Valid() && State() == old(State()).Flush()
    {
      ok := flash.Write(offset, buffer[..storedLen]);
      offsetFlag := false;
    }

    method Allocate() returns (ok: bool)
      requires Shaped()
      modifies this`buffer
      ensures ok ==> buffer != null && buffer.Length == flash.blockSize
      ensures buffer == old(buffer) || (old(buffer) == null && fresh(buffer))
      ensures heap ==> ok
      ensures !ok ==> buffer == null
    {
      if buffer == null {
        if !heap {
          return false;
        }
        buffer := new Byte[flash.blockSize];
      }
      return true;
    }

    /** Copies data into the staging block from index at on. */
    method CopyIn(at: nat, data: Bytes)
      requires buffer != null && at + |data| <= buffer.Length
      modifies buffer
      ensures buffer[..at + |data|] == old(buffer[..at]) + data
    {
      forall i | 0 <= i < |data| {
        buffer[at + i] := data[i];
      }
    }

    /** Joins part to the staged bytes. */
    method StageBehind(part: Bytes)
      requires Valid() && offsetFlag && buffer != null && storedLen + |part| <= buffer.Length
      modifies this`storedLen, buffer
      ensures buffer == old(buffer) && storedLen == old(storedLen) + |part| && Shaped()
      ensures State() == old(State()).(staged := old(State()).staged + part)
    {
      CopyIn(storedLen, part);
      storedLen := storedLen + |part|;
    }

    /** Stages part behind what flash has of its block. */
    method StageAnew(begin: nat, at: nat, part: Bytes) returns (ok: bool)
      requires Shaped() && begin <= at <= |flash.mem| && at - begin + |part| <= flash.blockSize
      modifies this, buffer
      ensures heap ==> ok
      ensures buffer == old(buffer) || (old(buffer) == null && fresh(buffer))
      ensures ok ==> buffer != null && storedLen == at - begin + |part| && Shaped()
      ensures ok ==> State() == W.Writer(flash.mem, true, begin, flash.mem[begin..at] + part)
    {
      ok := Allocate();
      if ok {
        var n := at - begin;
        var read, head := flash.Read(begin, n);
        CopyIn(0, head);
        assert buffer[..n] == head;
        CopyIn(n, part);
        storedLen := n + |part|;
        offset := begin;
        offsetFlag := true;
      }
    }

    /** Writes the staged block out when it is full. */
    method CommitFull() returns (ok: bool)
      requires flash.Valid() && Shaped() && buffer != null
      requires offset % flash.blockSize == 0 && offset + storedLen <= |flash.mem|
      modifies this`offsetFlag, flash
      ensures ok && flash.Valid() && Shaped() && State() == old(State()).Commit(flash.blockSize)
    {
      ok := true;
      if storedLen >= flash.blockSize {
        assert buffer[..storedLen][..flash.blockSize] == buffer[..flash.blockSize];
        ok := flash.Write(offset, buffer[..flash.blockSize]);
        offsetFlag := false;
      }
    }

    method BeginNotAligned(at: nat, buff: Bytes) returns (ok: bool, outLen: nat)
      requires Valid() && at % flash.blockSize != 0 && at + |buff| <= |flash.mem|
      requires offsetFlag ==> offset + storedLen == at
      modifies this, buffer, flash
      ensures heap ==> ok
      ensures buffer == old(buffer) || (old(buffer) == null && fresh(buffer))
      ensures outLen == W.InBlock(flash.blockSize, at, |buff|)
      ensures ok ==> Valid() && State() == old(State()).Begin(flash.blockSize, at, buff[..outLen])
    {
      var bs := flash.blockSize;
      var begin := at / bs * bs;
      W.BlockStart(bs, at);
      outLen := Min(|buff|, begin + bs - at);
      ghost var before := State();
      ghost var part := buff[..outLen];
      W.StageFits(before, bs, at, part);
      hide W.Writer.Begin, W.Writer.Image, W.Writer.Commit, W.Writer.Valid;
      if offsetFlag && buffer != null {
        StageBehind(buff[..outLen]);
      } else {
        ok := StageAnew(begin, at, buff[..outLen]);
        if !ok {
          return;
        }
      }
      assert State() == before.Stage(bs, at, part);
      ok := CommitFull();
    }

    /** Writes the whole blocks of buff, one flash write each. */
    method EntireBlocks(at: nat, buff: Bytes) returns (ok: bool, outLen: nat)
      requires flash.Valid() && at % flash.blockSize == 0 && at + |buff| <= |flash.mem|
      modifies flash
      ensures ok && flash.Valid() && outLen == |buff| / flash.blockSize * flash.blockSize <= |buff|
      ensures flash.mem == Overlay(old(flash.mem), at, buff[..outLen])
    {
      var bs := flash.blockSize;
      outLen := 0;
      ok := true;
      W.BlockStart(bs, |buff|);
      OverlaySame(flash.mem, at, []);
      ghost var n := 0;
      while |buff| - outLen >= bs
        invariant ok && outLen == n * bs <= |buff| && (at + outLen) % bs == 0
        invariant flash.Valid() && |flash.mem| == |old(flash.mem)|
        invariant flash.mem == Overlay(old(flash.mem), at, buff[..outLen])
      {
        var block := buff[outLen..outLen + bs];
        OverlayAdjacent(old(flash.mem), at, buff[..outLen], block);
        assert buff[..outLen] + block == buff[..outLen + bs];
        ok := flash.Write(at + outLen, block);
        W.NextBlock(bs, at + outLen, bs);
        outLen := outLen + bs;
        n := n + 1;
      }
      W.DivisionUnique(|buff|, n, |buff| - outLen, bs);
    }

    method EndNotAlignedBlock(at: nat, buff: Bytes) returns (ok: bool)
      requires Shaped() && |buff| <= flash.blockSize
      modifies this, buffer
      ensures heap ==> ok
      ensures buffer == old(buffer) || (old(buffer) == null && fresh(buffer))
      ensures ok ==> Shaped() && State() == W.Writer(flash.mem, true, at, buff)
    {
      ok := Allocate();
      if ok {
        CopyIn(0, buff);
        storedLen := |buff|;
        offsetFlag := true;
        offset := at;
      }
    }

    method WriteBlocks(at: nat, buff: Bytes) returns (ok: bool)
      requires Valid() && at % flash.blockSize == 0 && at + |buff| <= |flash.mem|
      modifies this, buffer, flash
      ensures heap ==> ok
      ensures flash.Valid() && (buffer == old(buffer) || (old(buffer) == null && fresh(buffer)))
      ensures ok ==> Shaped() && State() == old(State()).Blocks(flash.blockSize, at, buff)
    {
      var written, outLen := EntireBlocks(at, buff);
      if |buff| - outLen <= 0 {
        assert buff[..outLen] == buff;
        return true;
      }
      W.BlockStart(flash.blockSize, |buff|);
      ok := EndNotAlignedBlock(at + outLen, buff[outLen..]);
    }

    /** The flush in front of a write that does not continue the staged bytes. */
    method FlushBefore(at: nat) returns (ok: bool)
      requires Valid()
      modifies this`offsetFlag, flash
      ensures ok && Valid() && State() == old(State()).Before(at)
      ensures offsetFlag ==> offset + storedLen == at
    {
      ok := true;
      if offsetFlag && offset + storedLen != at && storedLen > 0 {
        ok := WriteStoredData();
      }
    }

    /** A write whose staged bytes, if any are due, end where it starts. */
    method WriteOn(at: nat, buff: Bytes) returns (ok: bool)
      requires Valid() && at + |buff| <= |flash.mem|
      requires offsetFlag ==> offset + storedLen == at
      modifies this, buffer, flash
      ensures heap ==> ok
      ensures buffer == old(buffer) || (old(buffer) == null && fresh(buffer))
      ensures ok ==> flash.Valid() && Shaped() && State() == old(State()).WriteOn(flash.blockSize, at, buff)
    {
      hide W.Writer.Begin, W.Writer.Blocks, W.Writer.Image, W.InBlock;
      var position, rest := at, buff;
      if at % flash.blockSize != 0 {
        var take;
        ok, take := BeginNotAligned(at, buff);
        if !ok {
          return;
        }
        position, rest := at + take, buff[take..];
        W.RestAligned(flash.blockSize, at, |buff|);
      }
      if rest == [] {
        W.NoBlocks(State(), flash.blockSize, position);
        return true;
      }
      ok := WriteBlocks(position, rest);
    }

    /** pack_wr_write: after it the state, and with it the image, is the specified one. */
    method Write(at: nat, buff: Bytes) returns (ok: bool)
      requires Valid() && at + |buff| <= |flash.mem|
      modifies this, buffer, flash
      ensures heap ==> ok
      ensures buffer == old(buffer) || (old(buffer) == null && fresh(buffer))
      ensures ok ==> Valid() && State() == old(State()).Write(flash.blockSize, at, buff)
      ensures ok ==> State().Image() == Overlay(old(State()).Image(), at, buff)
    {
      hide W.Writer.WriteOn, W.Writer.Image, W.Writer.Before;
      W.WriteImage(State(), flash.blockSize, at, buff);
      W.FlushKeepsImage(State(), flash.blockSize, at);
      ok := FlushBefore(at);
      ok := WriteOn(at, buff);
    }

    /** pack_wr_write_end. */
    method WriteEnd() returns (ok: bool)
      requires Valid()
      modifies this`offsetFlag, flash
      ensures ok && Valid() && State() == old(State()).End()
      ensures flash.mem == old(State()).Image() <==>
                old(offsetFlag) || old(storedLen) == 0 ||
                old(flash.mem)[offset..offset + storedLen] == old(State()).staged
    {
      W.EndExact(State(), flash.blockSize);
      if storedLen == 0 {
        return true;
      }
      ok := WriteStoredData();
    }
  }
}
