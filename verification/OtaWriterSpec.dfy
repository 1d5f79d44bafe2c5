/** The block-staging writer as a function on its state: flash, and the bytes staged for
    one block. */
module OtaWriterSpec {
  import opened Basics
  import opened OtaBytes

  /** staged is the stored part of the writer's buffer; flag says whether it holds bytes
      that flash does not have yet. */
  datatype Writer = Writer(mem: Bytes, flag: bool, offset: nat, staged: Bytes)
  {
    predicate Valid(bs: nat) {
      && 0 < bs
      && offset + |staged| <= |mem|
      && |staged| <= bs && (|staged| > 0 ==> offset % bs == 0)
      && (flag ==> 0 < |staged| < bs)
    }

    /** Flash as it will be once the staged bytes are out. */
    function Image(): (image: Bytes)
      requires offset + |staged| <= |mem|
      ensures |image| == |mem|
    {
      if flag then Overlay(mem, offset, staged) else mem
    }

    /** pack_wr_write_stored_data. */
    function Flush(): (w: Writer)
      requires offset + |staged| <= |mem|
      ensures |w.mem| == |mem|
    {
      this.(mem := Overlay(mem, offset, staged), flag := false)
    }

    /** The flush in front of a write that does not continue the staged bytes. */
    function Before(at: nat): (w: Writer)
      requires offset + |staged| <= |mem|
      ensures |w.mem| == |mem|
    {
      if flag && offset + |staged| != at && |staged| > 0 then Flush() else this
    }

    /** The part of a chunk that ends in at's block joins the staged bytes, or is staged
        anew behind what flash has of the block. */
    function Stage(bs: nat, at: nat, part: Bytes): (w: Writer)
      requires 0 < bs && at + |part| <= |mem|
      ensures |w.mem| == |mem|
    {
      if flag then this.(staged := staged + part)
      else this.(flag := true, offset := at / bs * bs, staged := mem[at / bs * bs..at] + part)
    }

    /** A full block goes to flash. */
    function Commit(bs: nat): (w: Writer)
      requires offset + |staged| <= |mem|
      ensures |w.mem| == |mem|
    {
      if |staged| >= bs then this.(mem := Overlay(mem, offset, staged[..bs]), flag := false) else this
    }

    /** pack_wr_begin_not_aligned. */
    function Begin(bs: nat, at: nat, part: Bytes): (w: Writer)
      requires 0 < bs && at + |part| <= |mem|
      requires flag ==> offset + |staged + part| <= |mem|
      ensures |w.mem| == |mem|
    {
      Stage(bs, at, part).Commit(bs)
    }

    /** pack_wr_entire_blocks and pack_wr_end_not_aligned_block. */
    function Blocks(bs: nat, at: nat, data: Bytes): (w: Writer)
      requires 0 < bs && at + |data| <= |mem|
      ensures |w.mem| == |mem|
    {
      var whole := |data| / bs * bs;
      var v := this.(mem := Overlay(mem, at, data[..whole]));
      if whole == |data| then v else v.(staged := data[whole..], flag := true, offset := at + whole)
    }

    /** pack_wr_write, once no staged bytes are due that the chunk does not continue. */
    function WriteOn(bs: nat, at: nat, chunk: Bytes): (w: Writer)
      requires Valid(bs) && at + |chunk| <= |mem|
      requires flag ==> offset + |staged| == at
      ensures |w.mem| == |mem|
    {
      if at % bs != 0 then
        var take := InBlock(bs, at, |chunk|);
        PartFits(this, bs, at, take);
        Begin(bs, at, chunk[..take]).Blocks(bs, at + take, chunk[take..])
      else
        Blocks(bs, at, chunk)
    }

    /** pack_wr_write. */
    function Write(bs: nat, at: nat, chunk: Bytes): (w: Writer)
      requires Valid(bs) && at + |chunk| <= |mem|
      ensures |w.mem| == |mem|
    {
      FlushKeepsImage(this, bs, at);
      Before(at).WriteOn(bs, at, chunk)
    }

    /** pack_wr_write_end. */
    function End(): (w: Writer)
      requires offset + |staged| <= |mem|
      ensures |w.mem| == |mem|
    {
      if |staged| == 0 then this else Flush()
    }
  }

  /** How much of len bytes at offset at lies in the block that at lies in. */
  function InBlock(bs: nat, at: nat, len: nat): (n: nat)
    requires 0 < bs
    ensures n <= len && n <= bs - at % bs
    ensures n == len || n == bs - at % bs
  {
    Min(len, bs - at % bs)
  }

  lemma PartFits(w: Writer, bs: nat, at: nat, take: nat)
    requires w.Valid(bs) && at + take <= |w.mem|
    requires w.flag ==> w.offset + |w.staged| == at
    ensures w.flag ==> w.offset + |w.staged| + take <= |w.mem|
  {
  }

  /** Quotient and remainder are unique. */
  lemma DivisionUnique(x: nat, q: nat, r: nat, bs: nat)
    requires 0 < bs && x == q * bs + r && r < bs
    ensures x / bs == q && x % bs == r
  {
    var d := q - x / bs;
    assert d * bs == x % bs - r;
    Bounded(d, bs);
  }

  lemma Bounded(d: int, bs: nat)
    requires 0 < bs && -(bs as int) < d * bs < bs
    ensures d == 0
  {
  }

  lemma BlockStart(bs: nat, at: nat)
    requires 0 < bs
    ensures at / bs * bs + at % bs == at && at / bs * bs % bs == 0
  {
    DivisionUnique(at / bs * bs, at / bs, 0, bs);
  }

  /** Where a stretch of n bytes from a block boundary ends. */
  lemma SameBlock(bs: nat, offset: nat, n: nat)
    requires 0 < bs && offset % bs == 0 && n < bs
    ensures (offset + n) % bs == n && (offset + n) / bs * bs == offset
  {
    DivisionUnique(offset + n, offset / bs, n, bs);
  }

  lemma NextBlock(bs: nat, at: nat, whole: nat)
    requires 0 < bs && at % bs == 0 && whole % bs == 0
    ensures (at + whole) % bs == 0
  {
    assert at == at / bs * bs && whole == whole / bs * bs;
    assert (at / bs + whole / bs) * bs == at + whole;
    DivisionUnique(at + whole, at / bs + whole / bs, 0, bs);
  }

  // ---- the image ----

  lemma FlushKeepsImage(w: Writer, bs: nat, at: nat)
    requires w.Valid(bs)
    ensures w.Before(at).Valid(bs) && w.Before(at).Image() == w.Image()
    ensures w.Before(at).flag ==> w.offset + |w.staged| == at && w.Before(at) == w
  {
  }

  /** Writing out a full block, or keeping a part of it staged, shows the same image. */
  lemma StagedImage(w: Writer, bs: nat)
    requires 0 < bs && 0 < |w.staged| <= bs && w.offset % bs == 0 && w.offset + |w.staged| <= |w.mem|
    ensures var f := w.(mem := Overlay(w.mem, w.offset, w.staged), flag := false);
            f.Valid(bs) && f.Image() == Overlay(w.mem, w.offset, w.staged)
    ensures w.flag && |w.staged| < bs ==> w.Valid(bs) && w.Image() == Overlay(w.mem, w.offset, w.staged)
  {
    hide Overlay;
  }

  lemma AppendImage(w: Writer, bs: nat, at: nat, part: Bytes)
    requires w.Valid(bs) && w.flag && w.offset + |w.staged| == at
    requires at + |part| <= |w.mem| && |part| <= bs - at % bs
    ensures at % bs == |w.staged|
    ensures w.Begin(bs, at, part).Valid(bs)
    ensures w.Begin(bs, at, part).Image() == Overlay(w.Image(), at, part)
    ensures w.Begin(bs, at, part).flag <==> |part| < bs - at % bs
  {
    SameBlock(bs, w.offset, |w.staged|);
    OverlayAdjacent(w.mem, w.offset, w.staged, part);
    hide Overlay;
    var v := w.(staged := w.staged + part);
    StagedImage(v, bs);
    assert |v.staged| >= bs ==> v.staged[..bs] == v.staged;
  }

  lemma RestageImage(w: Writer, bs: nat, at: nat, part: Bytes)
    requires w.Valid(bs) && !w.flag && at % bs != 0
    requires at + |part| <= |w.mem| && |part| <= bs - at % bs
    ensures w.Begin(bs, at, part).Valid(bs)
    ensures w.Begin(bs, at, part).Image() == Overlay(w.Image(), at, part)
    ensures w.Begin(bs, at, part).flag <==> |part| < bs - at % bs
  {
    BlockStart(bs, at);
    var begin := at / bs * bs;
    var head := w.mem[begin..at];
    OverlaySame(w.mem, begin, head);
    OverlayAdjacent(w.mem, begin, head, part);
    hide Overlay;
    var v := w.(flag := true, offset := begin, staged := head + part);
    StagedImage(v, bs);
    assert |v.staged| >= bs ==> v.staged[..bs] == v.staged;
  }

  /** Staging stays inside one block. */
  lemma StageFits(w: Writer, bs: nat, at: nat, part: Bytes)
    requires w.Valid(bs) && at % bs != 0 && at + |part| <= |w.mem| && |part| <= bs - at % bs
    requires w.flag ==> w.offset + |w.staged| == at
    ensures var v := w.Stage(bs, at, part);
            && v.offset % bs == 0 && v.offset + |v.staged| == at + |part| && |v.staged| <= bs
            && v.offset == at / bs * bs && v.Commit(bs) == w.Begin(bs, at, part)
    ensures w.Begin(bs, at, part).Valid(bs)
  {
    BlockStart(bs, at);
    if w.flag {
      SameBlock(bs, w.offset, |w.staged|);
    }
    BeginImage(w, bs, at, part);
  }

  lemma NoBlocks(w: Writer, bs: nat, at: nat)
    requires 0 < bs && at <= |w.mem|
    ensures w.Blocks(bs, at, []) == w
  {
    OverlaySame(w.mem, at, []);
  }

  lemma BlocksImage(w: Writer, bs: nat, at: nat, data: Bytes)
    requires w.Valid(bs) && !w.flag && at % bs == 0 && at + |data| <= |w.mem|
    ensures w.Blocks(bs, at, data).Valid(bs)
    ensures w.Blocks(bs, at, data).Image() == Overlay(w.Image(), at, data)
  {
    BlockStart(bs, |data|);
    var whole := |data| / bs * bs;
    NextBlock(bs, at, whole);
    OverlayAdjacent(w.mem, at, data[..whole], data[whole..]);
    assert data[..whole] + data[whole..] == data;
    assert whole == |data| ==> data[..whole] == data;
  }

  lemma ChunkSplit(memory: Bytes, at: nat, chunk: Bytes, take: nat)
    requires at + |chunk| <= |memory| && take <= |chunk|
    ensures Overlay(Overlay(memory, at, chunk[..take]), at + take, chunk[take..]) == Overlay(memory, at, chunk)
  {
    OverlayAdjacent(memory, at, chunk[..take], chunk[take..]);
    assert chunk[..take] + chunk[take..] == chunk;
  }

  lemma BeginImage(w: Writer, bs: nat, at: nat, part: Bytes)
    requires w.Valid(bs) && at % bs != 0 && at + |part| <= |w.mem| && |part| <= bs - at % bs
    requires w.flag ==> w.offset + |w.staged| == at
    ensures w.Begin(bs, at, part).Valid(bs)
    ensures w.Begin(bs, at, part).Image() == Overlay(w.Image(), at, part)
    ensures w.Begin(bs, at, part).flag <==> |part| < bs - at % bs
  {
    hide Overlay, Writer.Begin, Writer.Image;
    if w.flag {
      AppendImage(w, bs, at, part);
    } else {
      RestageImage(w, bs, at, part);
    }
  }

  /** A write that starts inside a block. */
  lemma UnalignedImage(w: Writer, bs: nat, at: nat, chunk: Bytes)
    requires w.Valid(bs) && at % bs != 0 && at + |chunk| <= |w.mem|
    requires w.flag ==> w.offset + |w.staged| == at
    ensures var take := InBlock(bs, at, |chunk|);
            var r := w.Begin(bs, at, chunk[..take]).Blocks(bs, at + take, chunk[take..]);
            r.Valid(bs) && r.Image() == Overlay(w.Image(), at, chunk)
  {
    hide Overlay, Writer.Begin, Writer.Blocks, Writer.Image, InBlock, Writer.Valid;
    ImageLength(w, bs);
    var take := InBlock(bs, at, |chunk|);
    ChunkSplit(w.Image(), at, chunk, take);
    BeginImage(w, bs, at, chunk[..take]);
    var v := w.Begin(bs, at, chunk[..take]);
    if v.flag {
      assert take == |chunk|;
      assert chunk[take..] == [] && chunk[..take] == chunk;
      NoBlocks(v, bs, at + take);
    } else {
      BlockEnd(bs, at);
      BlocksImage(v, bs, at + take, chunk[take..]);
    }
  }

  lemma RestAligned(bs: nat, at: nat, len: nat)
    requires 0 < bs
    ensures InBlock(bs, at, len) == len || (at + InBlock(bs, at, len)) % bs == 0
  {
    BlockEnd(bs, at);
  }

  lemma ImageLength(w: Writer, bs: nat)
    requires w.Valid(bs)
    ensures |w.Image()| == |w.mem| && w.offset + |w.staged| <= |w.mem| && 0 < bs
  {
  }

  lemma BlockEnd(bs: nat, at: nat)
    requires 0 < bs
    ensures (at + (bs - at % bs)) % bs == 0
  {
    BlockStart(bs, at);
    assert at + (bs - at % bs) == (at / bs + 1) * bs;
    DivisionUnique(at + (bs - at % bs), at / bs + 1, 0, bs);
  }

  /** After every write the image is the old one with the chunk written at its offset. */
  lemma WriteImage(w: Writer, bs: nat, at: nat, chunk: Bytes)
    requires w.Valid(bs) && at + |chunk| <= |w.mem|
    ensures w.Write(bs, at, chunk).Valid(bs)
    ensures w.Write(bs, at, chunk).Image() == Overlay(w.Image(), at, chunk)
  {
    hide Overlay, Writer.Begin, Writer.Blocks, Writer.Image;
    FlushKeepsImage(w, bs, at);
    var b := w.Before(at);
    if at % bs != 0 {
      UnalignedImage(b, bs, at, chunk);
    } else {
      if b.flag {
        SameBlock(bs, b.offset, |b.staged|);
      }
      BlocksImage(b, bs, at, chunk);
    }
  }

  // ---- finishing ----

  /** Ending a download leaves the image in flash exactly when the staged bytes are still
      due, or there are none, or flash has them already. */
  lemma EndExact(w: Writer, bs: nat)
    requires w.Valid(bs)
    ensures w.End().mem == w.Image() <==>
              w.flag || w.staged == [] || w.mem[w.offset..w.offset + |w.staged|] == w.staged
  {
    if !w.flag && w.staged != [] {
      var f := Overlay(w.mem, w.offset, w.staged);
      assert f[w.offset..w.offset + |w.staged|] == w.staged;
      if w.mem[w.offset..w.offset + |w.staged|] == w.staged {
        OverlaySame(w.mem, w.offset, w.staged);
      }
    }
  }
}
