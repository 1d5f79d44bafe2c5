/** The storage device: head, writer and checksum behind one write function. */
module OtaDevice {
  import opened Basics
  import opened OtaBytes
  import S = OtaHeadSpec
  import W = OtaWriterSpec
  import P = OtaPackSpec
  import D = OtaDeviceSpec
  import opened OtaHead
  import opened OtaWriter

  class PackDevice {
    const head: PackHead
    const writer: PackWriter

    ghost predicate Valid()
      reads this, head, writer, writer.buffer, writer.flash
    {
      && head.Valid() && writer.Valid() && writer.heap
      && (head.buff != null && writer.buffer != null ==> head.buff != writer.buffer)
    }

    ghost function State(): D.Device
      reads this, head, head.buff, writer, writer.buffer, writer.flash
      requires Valid()
    {
      D.Device(head.State(), writer.State())
    }

    constructor (flash: Flash, attr: nat)
      requires flash.Valid()
      ensures Valid() && head.attr == attr && writer.flash == flash
      ensures State() == D.Device(S.EMPTY, W.Writer(flash.mem, false, 0, []))
      ensures fresh(head) && fresh(writer) && head.buff == null && writer.buffer == null
    {
      head := new PackHead(attr);
      writer := new PackWriter(flash, true);
    }

    /** pack_checksum_restore_checksum: feeds what flash has up to the offset, in blocks. */
    method RestoreChecksum(at: nat, fed: Bytes) returns (ok: bool, again: Bytes)
      ensures ok <==> at <= |writer.flash.mem|
      ensures again == fed + writer.flash.mem[..D.Restored(writer.flash.mem, at)]
    {
      var total := 0;
      ghost var n := 0;
      ghost var mem := writer.flash.mem;
      again := fed;
      assert mem[..0] == [];
      while true
        invariant total <= at && total <= |mem| && writer.flash.mem == mem
        invariant again == fed + mem[..total]
        invariant total == n * D.READ_BLOCK || total == at
        decreases at - total, total < at || n == 0
      {
        var left := at - total;
        var size := Min(left, D.READ_BLOCK);
        var read, data := writer.flash.Read(total, size);
        if !read {
          return false, again;
        }
        again := again + data;
        assert mem[..total] + data == mem[..total + size];
        total := total + size;
        n := n + 1;
        if total >= at {
          break;
        }
      }
      return true, again;
    }

    /** pack_checksum_update_data. */
    method UpdateData(at: nat, data: Bytes) returns (ok: bool)
      requires Valid() && head.digest.Some?
      modifies head`digest
      ensures Valid()
      ensures var h := old(head.State());
              head.State() == h.(digest := Some(D.Update(h.digest.value, h, at, data, writer.flash.mem)))
    {
      hide D.Restored;
      if data == [] {
        return true;
      }
      var d := head.digest.value;
      var headLen := head.GetHeadLen();
      if (d.flag && d.next == at) || headLen == at {
        head.digest := Some(S.Digest(d.fed + data, true, at + |data|));
        return true;
      }
      var again: Bytes := [];
      if headLen != 0 {
        again := head.buff[..head.storedLen];
      }
      ok, again := RestoreChecksum(at, again);
      if !ok {
        head.digest := Some(d.(fed := again));
        return false;
      }
      head.digest := Some(S.Digest(again + data, true, at + |data|));
    }

    /** The piece of payload behind the head goes to the writer and to the checksum. */
    method WriteRest(at: nat, rest: Bytes) returns (ok: bool)
      requires Valid()
      modifies head`digest, writer, writer.buffer, writer.flash
      ensures Valid() && (writer.buffer == old(writer.buffer) || fresh(writer.buffer))
      ensures (State(), ok) == D.WriteRest(old(State()), writer.flash.blockSize, at, rest)
    {
      hide D.Update, W.Writer.Write;
      var headLen := head.GetHeadLen();
      var target := D.Target(at, headLen);
      if target + |rest| > |writer.flash.mem| {
        return false;
      }
      ok := writer.Write(target, rest);
      if head.digest.Some? {
        var fed := UpdateData(at, rest);
      }
      return true;
    }

    /** pack_storage_write_software: the device after it is the specified one. */
    method WriteSoftware(at: nat, chunk: Bytes) returns (ok: bool)
      requires Valid()
      modifies head, head.buff, writer, writer.buffer, writer.flash
      ensures Valid()
      ensures head.buff == old(head.buff) || fresh(head.buff)
      ensures writer.buffer == old(writer.buffer) || fresh(writer.buffer)
      ensures (State(), ok) == D.WriteSoftware(old(State()), head.attr, writer.flash.blockSize, at, chunk)
    {
      hide S.Parse, D.WriteRest, D.Cast;
      if chunk == [] {
        return false;
      }
      var used;
      ok, used := head.Parse(at, D.Cast(chunk));
      if !ok || used == |chunk| {
        return;
      }
      ok := WriteRest(at + used, D.Cast(chunk[used..]));
    }

    /** pack_storage_write_software_end, up to the release of both parts. */
    method WriteSoftwareEnd(downloaded: bool, total: nat, check: (Bytes, Bytes) -> bool) returns (ok: bool)
      requires Valid()
      modifies writer`offsetFlag, writer.flash
      ensures Valid() && writer.State() == old(writer.State()).End() && head.State() == old(head.State())
      ensures ok <==> (downloaded ==> D.HeadCheck(head.State(), total, check))
    {
      ok := writer.WriteEnd();
      if !downloaded {
        return true;
      }
      var headLen := head.GetHeadLen();
      if headLen == 0 {
        return false;
      }
      var saveLen := head.GetField(8);
      if saveLen != total {
        return false;
      }
      if head.checksumPos.Some? && head.digest.Some? {
        return check(head.digest.value.fed, head.checksumPos.value);
      }
      return true;
    }
  }

  /** A whole download: every piece in order, then the end.  For every package within the
      device's limits and every cut of it into pieces of 1 to 65535 bytes, flash ends as the
      payload, the area is the one the package names, and the device answers whether the
      signature is good for the bytes the packer hashed. */
  method Download(flash: Flash, attr: nat, chunks: seq<Bytes>, total: nat, check: (Bytes, Bytes) -> bool,
                  ghost ts: seq<P.Tlv>, ghost signature: Bytes, ghost payload: Bytes)
    returns (ok: bool, area: nat)
    requires flash.Valid() && D.Deliverable(ts, attr, signature, payload, |flash.mem|)
    requires D.Pieces(chunks) && D.Concat(chunks) == D.Package(ts, attr, signature, payload)
    requires total == |D.Package(ts, attr, signature, payload)|
    modifies flash
    ensures flash.Valid() && flash.mem == payload + old(flash.mem)[|payload|..]
    ensures ok <==> check(D.Hashed(ts, attr, |signature|, payload), signature)
    ensures area == P.FlashTypeOf(ts, attr, 0)
  {
    hide P.FlashTypeOf, D.WriteSoftware, D.HeadCheck, D.Deliverable, D.Package, D.Hashed, W.Writer.End;
    D.EndToEnd(ts, attr, signature, payload, flash.mem, flash.blockSize, chunks, check);
    var device := new PackDevice(flash, attr);
    ghost var goal := D.Deliver(device.State(), attr, flash.blockSize, 0, chunks);
    var at: nat, i: nat := 0, 0;
    assert chunks[0..] == chunks;
    while i < |chunks|
      invariant 0 <= i <= |chunks|
      invariant device.Valid() && fresh(device) && fresh(device.head) && fresh(device.writer)
      invariant device.writer.flash == flash && device.head.attr == attr
      invariant device.head.buff == null || fresh(device.head.buff)
      invariant device.writer.buffer == null || fresh(device.writer.buffer)
      invariant D.Deliver(device.State(), attr, flash.blockSize, at, chunks[i..]) == goal && goal.Some?
    {
      assert chunks[i..][0] == chunks[i] && chunks[i..][1..] == chunks[i + 1..];
      var accepted := device.WriteSoftware(at, chunks[i]);
      at := at + |chunks[i]|;
      i := i + 1;
    }
    assert D.Deliver(device.State(), attr, flash.blockSize, at, []) == goal;
    ok := device.WriteSoftwareEnd(true, total, check);
    area := device.head.flashType;
  }
}
