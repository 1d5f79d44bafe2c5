/** The device end to end: head, writer and checksum fed by one stream of pieces. */
module OtaDeviceSpec {
  import opened Basics
  import opened OtaBytes
  import opened OtaHeadSpec
  import opened OtaPackSpec
  import W = OtaWriterSpec
  import R = OtaWriterRuns

  const READ_BLOCK: nat := 4096

  datatype Device = Device(head: Head, writer: W.Writer)

  /** The longest piece whose length survives the cast to 16 bits. */
  const MAX_PIECE: nat := 0xFFFF

  /** What is left of a piece when its length is cast to 16 bits. */
  function Cast(piece: Bytes): (r: Bytes)
    ensures |r| <= |piece| && (|piece| <= MAX_PIECE ==> r == piece)
  {
    piece[..|piece| % (MAX_PIECE + 1)]
  }

  /** How much of flash a restore reads before it is done or a read fails. */
  function Restored(mem: Bytes, at: nat): (n: nat)
    ensures n <= |mem|
  {
    if at <= |mem| then at else |mem| / READ_BLOCK * READ_BLOCK
  }

  /** pack_checksum_update_data: data that continues the stream is fed; otherwise the
      checksum starts again with the head and what it reads back from flash. */
  function Update(d: Digest, head: Head, at: nat, data: Bytes, mem: Bytes): Digest {
    if data == [] then d
    else if (d.flag && d.next == at) || head.Length() == at then Digest(d.fed + data, true, at + |data|)
    else
      var again := (if head.Done() then head.received else []) + mem[..Restored(mem, at)];
      if at <= |mem| then Digest(again + data, true, at + |data|) else d.(fed := again)
  }

  /** The uint32_t offset in the software area. */
  function Target(at: nat, headLen: nat): nat {
    (at - headLen) % 0x1_0000_0000
  }

  /** The part of a piece behind the head. */
  function WriteRest(d: Device, bs: nat, at: nat, rest: Bytes): (Device, bool) {
    var target := Target(at, d.head.Length());
    if !d.writer.Valid(bs) || target + |rest| > |d.writer.mem| then (d, false)
    else
      var w := d.writer.Write(bs, target, rest);
      var head := if d.head.digest.None? then d.head
                  else d.head.(digest := Some(Update(d.head.digest.value, d.head, at, rest, w.mem)));
      (Device(head, w), true)
  }

  /** pack_storage_write_software. */
  function WriteSoftware(d: Device, attr: nat, bs: nat, at: nat, chunk: Bytes): (Device, bool) {
    if chunk == [] then (d, false)
    else
      var s := Parse(d.head, attr, at, Cast(chunk));
      if !s.ok || s.used == |chunk| then (d.(head := s.head), s.ok)
      else WriteRest(d.(head := s.head), bs, at + s.used, Cast(chunk[s.used..]))
  }

  /** pack_head_check, for a signature check that answers for the bytes hashed. */
  function HeadCheck(h: Head, total: nat, check: (Bytes, Bytes) -> bool): bool {
    && h.Done()
    && GetDWord(h.received, 8) == total
    && (h.sig.Some? && h.digest.Some? ==> check(h.digest.value.fed, h.sig.value))
  }

  /** Pieces arriving one behind the other from offset at on; None once one is refused. */
  function Deliver(d: Device, attr: nat, bs: nat, at: nat, chunks: seq<Bytes>): Option<Device>
    decreases |chunks|
  {
    if chunks == [] then Some(d)
    else
      var (e, ok) := WriteSoftware(d, attr, bs, at, chunks[0]);
      if ok then Deliver(e, attr, bs, at + |chunks[0]|, chunks[1..]) else None
  }

  /** Pieces that are not empty and whose length fits 16 bits. */
  predicate Pieces(chunks: seq<Bytes>) {
    forall c | c in chunks :: 0 < |c| <= MAX_PIECE
  }

  function Concat(chunks: seq<Bytes>): Bytes {
    if chunks == [] then [] else chunks[0] + Concat(chunks[1..])
  }

  // ---- the state on the way ----

  /** The head once k bytes of head and payload have arrived. */
  function HeadAt(head: Bytes, payload: Bytes, attr: nat, k: nat): Head
    requires ValidHead(head, attr) && k <= |head| + |payload|
  {
    if k <= |head| then After(head, attr, k)
    else
      var p := Parsed(head, attr);
      p.(digest := Some(Digest(p.received + payload[..k - |head|], true, k)))
  }

  function Arrived(head: Bytes, k: nat): nat {
    if k <= |head| then 0 else k - |head|
  }

  predicate Reached(d: Device, head: Bytes, payload: Bytes, attr: nat, bs: nat, k: nat) {
    && ValidHead(head, attr) && k <= |head| + |payload|
    && d.head == HeadAt(head, payload, attr, k)
    && R.Follows(d.writer, bs, payload, Arrived(head, k))
  }

  lemma ParseBehindHead(h: Head, attr: nat, at: nat, chunk: Bytes)
    requires h.Done() && at >= h.headLen
    ensures Parse(h, attr, at, chunk) == Step(h, true, 0)
  {
    assert chunk[0..] == chunk;
  }

  /** What the parser makes of a piece, wherever the cut lies. */
  lemma PieceParsesAt(head: Bytes, payload: Bytes, attr: nat, k: nat, chunk: Bytes)
    requires ValidHead(head, attr) && chunk != [] && k + |chunk| <= |head| + |payload|
    requires chunk == (head + payload)[k..k + |chunk|]
    ensures var u := HeadPart(head, k, |chunk|);
            && k + u <= |head| + |payload|
            && Parse(HeadAt(head, payload, attr, k), attr, k, chunk)
               == Step(HeadAt(head, payload, attr, k + u), true, u)
  {
    hide Parse, After, ValidHead;
    if k < |head| {
      assert Piece(head, k, chunk);
      PieceParses(head, attr, k, chunk);
    } else {
      ParsedIsDone(head, attr);
      ParseBehindHead(HeadAt(head, payload, attr, k), attr, k, chunk);
    }
  }

  lemma ParsedIsDone(head: Bytes, attr: nat)
    requires ValidHead(head, attr)
    ensures Parsed(head, attr).Done() && Parsed(head, attr).headLen == |head|
    ensures After(head, attr, |head|) == Parsed(head, attr)
  {
    hide Walk;
  }

  /** The checksum takes payload bytes as they come. */
  lemma UpdateContinues(head: Bytes, payload: Bytes, attr: nat, m: nat, rest: Bytes, mem: Bytes)
    requires ValidHead(head, attr) && |head| <= m && m + |rest| <= |head| + |payload| && rest != []
    requires rest == payload[m - |head|..m - |head| + |rest|]
    ensures var h := HeadAt(head, payload, attr, m);
            && h.digest.Some?
            && h.(digest := Some(Update(h.digest.value, h, m, rest, mem))) == HeadAt(head, payload, attr, m + |rest|)
  {
    hide ValidHead, Walk;
    ParsedIsDone(head, attr);
    HeadIsLong(head, attr);
    var p := Parsed(head, attr);
    var before := payload[..m - |head|];
    assert before + rest == payload[..m + |rest| - |head|];
    assert (p.received + before) + rest == p.received + (before + rest);
    if m == |head| {
      assert before == [] && p.received + [] == p.received;
    }
  }

  /** Each piece of a package moves the device to the next prefix, and is accepted. */
  lemma DeviceStep(d: Device, head: Bytes, payload: Bytes, attr: nat, bs: nat, k: nat, chunk: Bytes)
    requires Reached(d, head, payload, attr, bs, k) && |head| + |payload| < 0x1_0000_0000
    requires 0 < |chunk| <= MAX_PIECE && k + |chunk| <= |head| + |payload|
    requires chunk == (head + payload)[k..k + |chunk|]
    ensures var (e, ok) := WriteSoftware(d, attr, bs, k, chunk);
            && ok && Reached(e, head, payload, attr, bs, k + |chunk|)
            && |e.writer.mem| == |d.writer.mem|
            && forall i | |payload| <= i < |d.writer.mem| :: e.writer.Image()[i] == d.writer.Image()[i]
  {
    hide ValidHead, Walk, Parse, HeadAt, WriteRest, WriteSoftware, R.Follows, W.Writer.Image, W.Writer.Valid;
    var u := HeadPart(head, k, |chunk|);
    PieceParsesAt(head, payload, attr, k, chunk);
    SoftwareSplits(d, attr, bs, k, chunk);
    if u < |chunk| {
      RestIsPayload(head, payload, k, chunk, u);
      var n := k + u - |head|;
      assert chunk[u..] == payload[n..n + |chunk[u..]|];
      RestArrives(d.(head := HeadAt(head, payload, attr, k + u)), head, payload, attr, bs, n, chunk[u..]);
    }
  }

  lemma SoftwareSplits(d: Device, attr: nat, bs: nat, at: nat, chunk: Bytes)
    requires 0 < |chunk| <= MAX_PIECE
    ensures var s := Parse(d.head, attr, at, chunk);
            s.ok ==> WriteSoftware(d, attr, bs, at, chunk) ==
                     if s.used == |chunk| then (d.(head := s.head), true)
                     else WriteRest(d.(head := s.head), bs, at + s.used, chunk[s.used..])
  {
    hide Parse, WriteRest;
  }

  /** The part of a piece behind the head goes to writer and digest. */
  lemma RestArrives(d: Device, head: Bytes, payload: Bytes, attr: nat, bs: nat, n: nat, rest: Bytes)
    requires ValidHead(head, attr) && rest != [] && n + |rest| <= |payload| && |head| + |payload| < 0x1_0000_0000
    requires d.head == HeadAt(head, payload, attr, |head| + n) && R.Follows(d.writer, bs, payload, n)
    requires rest == payload[n..n + |rest|]
    ensures var (e, ok) := WriteRest(d, bs, |head| + n, rest);
            && ok && e.head == HeadAt(head, payload, attr, |head| + n + |rest|)
            && R.Follows(e.writer, bs, payload, n + |rest|)
            && |e.writer.mem| == |d.writer.mem|
            && forall i | |payload| <= i < |d.writer.mem| :: e.writer.Image()[i] == d.writer.Image()[i]
  {
    hide ValidHead, Walk, HeadAt, Update, WriteRest, R.Follows, W.Writer.Write, W.Writer.Image, W.Writer.Valid;
    FollowsBounds(d.writer, bs, payload, n);
    R.FollowsStep(d.writer, bs, payload, n, n, |rest|);
    var w := d.writer.Write(bs, n, rest);
    UpdateContinues(head, payload, attr, |head| + n, rest, w.mem);
    LengthAt(head, payload, attr, |head| + n);
    RestWritten(d, bs, |head| + n, rest, n);
  }

  lemma RestWritten(d: Device, bs: nat, at: nat, rest: Bytes, n: nat)
    requires d.writer.Valid(bs) && n + |rest| <= |d.writer.mem| && n == Target(at, d.head.Length())
    requires d.head.digest.Some?
    ensures var w := d.writer.Write(bs, n, rest);
            WriteRest(d, bs, at, rest) ==
            (Device(d.head.(digest := Some(Update(d.head.digest.value, d.head, at, rest, w.mem))), w), true)
  {
    hide Update, Target, W.Writer.Write, W.Writer.Valid;
  }

  lemma FollowsBounds(w: W.Writer, bs: nat, payload: Bytes, top: nat)
    requires R.Follows(w, bs, payload, top)
    ensures w.Valid(bs) && top <= |payload| <= |w.mem|
  {
  }

  lemma RestIsPayload(head: Bytes, payload: Bytes, k: nat, chunk: Bytes, u: nat)
    requires k + |chunk| <= |head| + |payload| && chunk == (head + payload)[k..k + |chunk|]
    requires u <= |chunk| && k + u >= |head|
    ensures chunk[u..] == payload[k + u - |head|..k + |chunk| - |head|]
  {
  }

  lemma LengthAt(head: Bytes, payload: Bytes, attr: nat, m: nat)
    requires ValidHead(head, attr) && |head| <= m <= |head| + |payload|
    ensures HeadAt(head, payload, attr, m).Length() == |head|
  {
    hide ValidHead, Walk;
    ParsedIsDone(head, attr);
    HeadIsLong(head, attr);
  }

  /** Every cut of a package into pieces of 1 to 65535 bytes is accepted piece by piece. */
  lemma {:induction false} DeliverAll(d: Device, head: Bytes, payload: Bytes, attr: nat, bs: nat, k: nat,
                                     chunks: seq<Bytes>)
    requires Reached(d, head, payload, attr, bs, k) && |head| + |payload| < 0x1_0000_0000
    requires Pieces(chunks) && (head + payload)[k..] == Concat(chunks)
    ensures Deliver(d, attr, bs, k, chunks).Some?
    ensures var e := Deliver(d, attr, bs, k, chunks).value;
            && Reached(e, head, payload, attr, bs, |head| + |payload|)
            && |e.writer.mem| == |d.writer.mem|
            && forall i | |payload| <= i < |d.writer.mem| :: e.writer.Image()[i] == d.writer.Image()[i]
    decreases |chunks|
  {
    hide WriteSoftware, Reached, W.Writer.Image;
    assert k <= |head| + |payload| by { ReachedBounds(d, head, payload, attr, bs, k); }
    if chunks == [] {
      assert |(head + payload)[k..]| == 0;
    } else {
      var c := chunks[0];
      assert c in chunks && forall x | x in chunks[1..] :: x in chunks;
      var rest := (head + payload)[k..];
      assert rest[..|c|] == c && rest[|c|..] == Concat(chunks[1..]);
      assert (head + payload)[k..k + |c|] == rest[..|c|];
      assert (head + payload)[k + |c|..] == rest[|c|..];
      DeviceStep(d, head, payload, attr, bs, k, c);
      var (e, ok) := WriteSoftware(d, attr, bs, k, c);
      ReachedBounds(e, head, payload, attr, bs, k + |c|);
      DeliverAll(e, head, payload, attr, bs, k + |c|, chunks[1..]);
    }
  }

  lemma ReachedBounds(d: Device, head: Bytes, payload: Bytes, attr: nat, bs: nat, k: nat)
    requires Reached(d, head, payload, attr, bs, k)
    ensures ValidHead(head, attr) && k <= |head| + |payload| && d.writer.Valid(bs) && |payload| <= |d.writer.mem|
  {
  }

  // ---- end to end ----

  /** The bytes the packer hashes: the head with a blank signature, then the payload. */
  function Hashed(ts: seq<Tlv>, attr: nat, size: nat, payload: Bytes): Bytes {
    HeadBytes(0, Signed(ts, attr, Zeros(size)), |payload|) + payload
  }

  /** The package: the same with the signature in its place. */
  function Package(ts: seq<Tlv>, attr: nat, signature: Bytes, payload: Bytes): Bytes {
    HeadBytes(0, Signed(ts, attr, signature), |payload|) + payload
  }

  /** Every packer output that the device's limits allow. */
  predicate Deliverable(ts: seq<Tlv>, attr: nat, signature: Bytes, payload: Bytes, room: nat) {
    && attr != BIN_TYPE && attr < 0x1_0000
    && ValidTlvs(ts, attr) && Unsigned(ts, attr)
    && 0 < |signature| < 0x1_0000 && 0 < |payload| <= room
    && |HeadBytes(0, Signed(ts, attr, signature), |payload|)| <= MAX_LEN
    && MAX_LEN + |payload| < 0x1_0000_0000
  }

  lemma SignedHeadParses(ts: seq<Tlv>, attr: nat, signature: Bytes, payload: Bytes, room: nat)
    requires Deliverable(ts, attr, signature, payload, room)
    ensures var head := HeadBytes(0, Signed(ts, attr, signature), |payload|);
            && ValidHead(head, attr)
            && Parsed(head, attr).received == HeadBytes(0, Signed(ts, attr, Zeros(|signature|)), |payload|)
            && Parsed(head, attr).sig == Some(signature)
            && |Parsed(head, attr).received| == |head|
            && GetDWord(Parsed(head, attr).received, 8) == |head| + |payload|
            && Parsed(head, attr).flashType == FlashTypeOf(ts, attr, 0)
  {
    hide Walk, ValidHead, EncodeAll, SignatureOf, FlashTypeOf, BlankAll, DWord, GetDWord;
    var all := Signed(ts, attr, signature);
    SignedReads(ts, attr, signature);
    assert ValidTlvs(all, attr) by {
      forall t | t in all
        ensures ValidTlv(t, attr)
      {
        if t !in ts {
          assert t == Tlv(attr, signature);
        }
      }
    }
    PackedHeadParses(all, attr, |payload|);
    AreaAppend(ts, Tlv(attr, signature), attr, 0);
    BlankAllLength(all, attr);
    FieldsDecode(0, BlankAll(all, attr), |payload|);
  }

  /** For every package within the device's limits and every cut into pieces of 1 to 65535 bytes:
      all pieces are accepted, the device hashes what the packer hashed, the signature is
      saved, the area is selected, flash ends as the payload with the rest untouched, and the
      final check succeeds exactly when the signature is good for those bytes. */
  lemma EndToEnd(ts: seq<Tlv>, attr: nat, signature: Bytes, payload: Bytes, mem: Bytes, bs: nat,
                 chunks: seq<Bytes>, check: (Bytes, Bytes) -> bool)
    requires Deliverable(ts, attr, signature, payload, |mem|) && 0 < bs
    requires Pieces(chunks) && Concat(chunks) == Package(ts, attr, signature, payload)
    ensures Deliver(Device(EMPTY, W.Writer(mem, false, 0, [])), attr, bs, 0, chunks).Some?
    ensures var e := Deliver(Device(EMPTY, W.Writer(mem, false, 0, [])), attr, bs, 0, chunks).value;
            var hashed := Hashed(ts, attr, |signature|, payload);
            && e.writer.Valid(bs) && e.writer.End().mem == payload + mem[|payload|..]
            && e.head.sig == Some(signature) && e.head.flashType == FlashTypeOf(ts, attr, 0)
            && e.head.digest.Some? && e.head.digest.value.fed == hashed
            && (HeadCheck(e.head, |Package(ts, attr, signature, payload)|, check) <==> check(hashed, signature))
  {
    hide W.Writer.Image, W.Writer.End, ValidHead, Walk, GetDWord, HeadBytes, FlashTypeOf, Deliver,
         Deliverable;
    var head := HeadBytes(0, Signed(ts, attr, signature), |payload|);
    var d := Device(EMPTY, W.Writer(mem, false, 0, []));
    SignedHeadParses(ts, attr, signature, payload, |mem|);
    HeadIsLong(head, attr);
    Sizes(ts, attr, signature, payload, |mem|);
    assert Reached(d, head, payload, attr, bs, 0) by {
      Fresh(mem, bs, payload);
      assert head[..0] == [];
    }
    assert (head + payload)[0..] == head + payload;
    DeliverAll(d, head, payload, attr, bs, 0, chunks);
    var e := Deliver(d, attr, bs, 0, chunks).value;
    R.FollowsEnds(e.writer, bs, payload, |payload|);
    W.ImageLength(e.writer, bs);
    Fresh(mem, bs, payload);
    ParsedIsDone(head, attr);
    assert payload[..|payload|] == payload;
    SamePrefixAndRest(e.writer.Image(), payload, mem);
  }

  lemma Sizes(ts: seq<Tlv>, attr: nat, signature: Bytes, payload: Bytes, room: nat)
    requires Deliverable(ts, attr, signature, payload, room)
    ensures var head := HeadBytes(0, Signed(ts, attr, signature), |payload|);
            |head| + |payload| < 0x1_0000_0000 && 0 < |payload| <= room
  {
  }

  lemma Fresh(mem: Bytes, bs: nat, payload: Bytes)
    requires 0 < bs && |payload| <= |mem|
    ensures var w := W.Writer(mem, false, 0, []);
            w.Valid(bs) && w.Image() == mem && R.Follows(w, bs, payload, 0)
  {
  }

  lemma SamePrefixAndRest(a: Bytes, payload: Bytes, mem: Bytes)
    requires |payload| <= |mem| == |a| && a[..|payload|] == payload
    requires forall i | |payload| <= i < |mem| :: a[i] == mem[i]
    ensures a == payload + mem[|payload|..]
  {
    assert a == a[..|payload|] + a[|payload|..];
  }

  // ---- what is refused ----

  /** The fixed fields of a package that no device takes: another version than 0, a head shorter
      than they are, as long as the package or longer, or longer than 4096 bytes. */
  predicate BadFields(f: Bytes)
    requires |f| >= 12
  {
    || GetDWord(f, 0) != 0 || GetDWord(f, 4) < 12 || GetDWord(f, 4) >= GetDWord(f, 8) || GetDWord(f, 4) > 4096
  }

  /** A head of which k bytes of the fixed fields are there. */
  function Begun(fields: Bytes, k: nat): Head
    requires k < 12 <= |fields|
  {
    Head(fields[..k], if k == 0 then 0 else 12, None, None, 0)
  }

  lemma BegunParses(fields: Bytes, attr: nat, k: nat, chunk: Bytes)
    requires k < 12 <= |fields| && chunk != []
    requires forall i | 0 <= i < |chunk| && k + i < |fields| :: chunk[i] == fields[k + i]
    ensures k + |chunk| < 12 ==>
              Parse(Begun(fields, k), attr, k, chunk) == Step(Begun(fields, k + |chunk|), true, |chunk|)
    ensures k + |chunk| >= 12 && BadFields(fields) ==>
              var s := Parse(Begun(fields, k), attr, k, chunk); !s.ok && s.head.received == []
  {
    hide GetDWord, ParseRest;
    var copy := Min(12 - k, |chunk|);
    var h := Begun(fields, k);
    assert h.received[..k] == fields[..k];
    assert fields[..k] + chunk[..copy] == fields[..k + copy];
    if k + |chunk| >= 12 {
      FieldsCut(fields);
    }
  }

  lemma FieldsCut(fields: Bytes)
    requires |fields| >= 12
    ensures |fields[..12]| == 12 && BadFields(fields[..12]) == BadFields(fields)
  {
  }

  lemma BegunWrites(fields: Bytes, attr: nat, bs: nat, w: W.Writer, k: nat, chunk: Bytes)
    requires k < 12 <= |fields| && BadFields(fields) && 0 < |chunk| <= MAX_PIECE
    requires forall i | 0 <= i < |chunk| && k + i < |fields| :: chunk[i] == fields[k + i]
    ensures var (e, ok) := WriteSoftware(Device(Begun(fields, k), w), attr, bs, k, chunk);
            if k + |chunk| < 12 then ok && e == Device(Begun(fields, k + |chunk|), w) else !ok
  {
    hide GetDWord, Parse, BadFields, Begun;
    BegunParses(fields, attr, k, chunk);
  }

  /** A package with bad fields is refused at the latest with the piece that completes them,
      however it is cut. */
  lemma {:induction false} BadFieldsRefused(fields: Bytes, attr: nat, bs: nat, w: W.Writer, k: nat, chunks: seq<Bytes>)
    requires k < 12 <= |fields| && BadFields(fields) && Pieces(chunks)
    requires fields == fields[..k] + Concat(chunks)
    ensures Deliver(Device(Begun(fields, k), w), attr, bs, k, chunks) == None
    decreases |chunks|
  {
    hide WriteSoftware, BadFields, Begun;
    assert |Concat(chunks)| == |fields| - k;
    if chunks != [] {
      var c, rest := chunks[0], chunks[1..];
      assert c in chunks && forall x | x in rest :: x in chunks;
      FirstPiece(fields, k, c, Concat(rest));
      BegunWrites(fields, attr, bs, w, k, c);
      if k + |c| < 12 {
        BadFieldsRefused(fields, attr, bs, w, k + |c|, rest);
      }
    }
  }

  lemma FirstPiece(fields: Bytes, k: nat, c: Bytes, rest: Bytes)
    requires k <= |fields| && fields == fields[..k] + (c + rest)
    ensures k + |c| <= |fields| && fields == fields[..k + |c|] + rest
    ensures forall i | 0 <= i < |c| :: c[i] == fields[k + i]
  {
    assert fields[..k + |c|] == fields[..k] + c;
  }

  /** A piece of payload that does not fit the flash area is refused. */
  lemma OverflowRefused(d: Device, head: Bytes, fits: Bytes, attr: nat, bs: nat, k: nat, chunk: Bytes)
    requires Reached(d, head, fits, attr, bs, k) && |fits| == |d.writer.mem| && Piece(head, k, chunk)
    requires 0 < |chunk| <= MAX_PIECE && |head| + |fits| < k + |chunk| < 0x1_0000_0000
    ensures !WriteSoftware(d, attr, bs, k, chunk).1
  {
    hide ValidHead, Walk, Parse, HeadAt, After, R.Follows, W.Writer.Write, W.Writer.Image, W.Writer.Valid, Update;
    ReachedBounds(d, head, fits, attr, bs, k);
    var u := HeadPart(head, k, |chunk|);
    HeadIsLong(head, attr);
    if k < |head| {
      assert HeadAt(head, fits, attr, k) == After(head, attr, k) by { InsideHead(head, fits, attr, k); }
      PieceParses(head, attr, k, chunk);
      assert HeadAt(head, fits, attr, |head|) == After(head, attr, |head|) by { InsideHead(head, fits, attr, |head|); }
    } else {
      HeadIsDone(head, fits, attr, k);
      ParseBehindHead(HeadAt(head, fits, attr, k), attr, k, chunk);
    }
    LengthAt(head, fits, attr, Max(k, |head|));
    SoftwareSplits(d, attr, bs, k, chunk);
    assert Target(k + u, |head|) == k + u - |head|;
  }

  lemma InsideHead(head: Bytes, fits: Bytes, attr: nat, k: nat)
    requires ValidHead(head, attr) && k <= |head|
    ensures HeadAt(head, fits, attr, k) == After(head, attr, k)
  {
  }

  /** So a package whose payload is larger than the area is never taken whole, however it is
      cut. */
  lemma {:induction false} LargePayloadRefused(d: Device, head: Bytes, payload: Bytes, attr: nat, bs: nat, k: nat,
                                               chunks: seq<Bytes>)
    requires |payload| > |d.writer.mem| && |head| + |payload| < 0x1_0000_0000 && Pieces(chunks)
    requires Reached(d, head, payload[..|d.writer.mem|], attr, bs, k)
    requires k <= |head| + |payload| && Concat(chunks) == (head + payload)[k..]
    ensures Deliver(d, attr, bs, k, chunks) == None
    decreases |chunks|
  {
    hide Reached, WriteSoftware, W.Writer.Image;
    var fits := payload[..|d.writer.mem|];
    ReachedBounds(d, head, fits, attr, bs, k);
    assert |Concat(chunks)| == |head| + |payload| - k;
    if chunks != [] {
      var c, rest := chunks[0], chunks[1..];
      assert c in chunks && forall x | x in rest :: x in chunks;
      assert c == (head + payload)[k..k + |c|] && Concat(rest) == (head + payload)[k + |c|..];
      if k + |c| <= |head| + |fits| {
        assert c == (head + fits)[k..k + |c|];
        DeviceStep(d, head, fits, attr, bs, k, c);
        LargePayloadRefused(WriteSoftware(d, attr, bs, k, c).0, head, payload, attr, bs, k + |c|, rest);
      } else {
        assert Piece(head, k, c);
        OverflowRefused(d, head, fits, attr, bs, k, c);
      }
    }
  }

  /** A download of a package within the limits passes for the package's own length only. */
  lemma OnlyItsLength(ts: seq<Tlv>, attr: nat, signature: Bytes, payload: Bytes, mem: Bytes, bs: nat,
                      chunks: seq<Bytes>, check: (Bytes, Bytes) -> bool, total: nat)
    requires Deliverable(ts, attr, signature, payload, |mem|) && 0 < bs
    requires Pieces(chunks) && Concat(chunks) == Package(ts, attr, signature, payload)
    requires total != |Package(ts, attr, signature, payload)|
    ensures var e := Deliver(Device(EMPTY, W.Writer(mem, false, 0, [])), attr, bs, 0, chunks);
            e.Some? && !HeadCheck(e.value.head, total, check)
  {
    hide Deliver, Deliverable, Package, Hashed, GetDWord;
    EndToEnd(ts, attr, signature, payload, mem, bs, chunks, (x, y) => true);
  }

  // ---- pieces sent again, elsewhere or too long ----

  /** What a piece of payload feeds.  It is appended where the stream stands, or at the head's
      length wherever the stream stands.  Elsewhere the checksum starts again with the head and
      as much of flash as the package offset says, although that counts the head; where flash
      ends before, the piece itself is not fed. */
  lemma FedFrom(head: Bytes, payload: Bytes, attr: nat, m: nat, at: nat, data: Bytes, mem: Bytes)
    requires ValidHead(head, attr) && |head| <= m <= |head| + |payload| && data != []
    ensures var h, p := HeadAt(head, payload, attr, m), Parsed(head, attr).received;
            && h.digest.Some? && |p| == |head|
            && Update(h.digest.value, h, at, data, mem).fed ==
                 if at == m || at == |head| then p + payload[..m - |head|] + data
                 else if at <= |mem| then p + mem[..at] + data
                 else p + mem[..Restored(mem, at)]
  {
    hide ValidHead, Walk;
    ParsedIsDone(head, attr);
    HeadIsLong(head, attr);
    assert m == |head| ==> Parsed(head, attr).received + payload[..m - |head|] == Parsed(head, attr).received;
  }

  /** Whether flash, read back in whole blocks as far as it goes, ends with its n bytes of
      payload. */
  predicate EndsOnBlock(payload: Bytes, mem: Bytes, at: nat, n: nat)
    requires n <= |payload|
  {
    at > |mem| && Restored(mem, at) == n && mem[..n] == payload[..n]
  }

  /** The checksum after a piece of payload that arrives at any offset at, when the stream
      stood at m: it has been fed what the packer hashed up to the end of the piece exactly
      when the piece continues the stream, or lies so far back that flash is read to its end
      and that end is the end of the piece. */
  lemma FedRight(head: Bytes, payload: Bytes, attr: nat, m: nat, at: nat, data: Bytes, mem: Bytes)
    requires ValidHead(head, attr) && |head| <= m <= |head| + |payload| && data != []
    requires |head| <= at && at + |data| <= |head| + |payload|
    requires data == payload[at - |head|..at - |head| + |data|]
    ensures var h, n := HeadAt(head, payload, attr, m), at - |head| + |data|;
            && h.digest.Some?
            && var right := Parsed(head, attr).received + payload[..n];
            (Update(h.digest.value, h, at, data, mem).fed == right <==>
             at == m || (at != |head| && EndsOnBlock(payload, mem, at, n)))
  {
    FedFrom(head, payload, attr, m, at, data, mem);
    hide ValidHead, Walk, Update, HeadAt, Restored;
    ParsedIsDone(head, attr);
    HeadIsLong(head, attr);
    var p, n := Parsed(head, attr).received, at - |head| + |data|;
    if at == m {
      assert payload[..m - |head|] + data == payload[..n];
      assert p + payload[..m - |head|] + data == p + (payload[..m - |head|] + data);
    } else if at != |head| && at > |mem| {
      SameBehind(p, mem[..Restored(mem, at)], payload[..n]);
    }
  }

  lemma SameBehind(p: Bytes, a: Bytes, b: Bytes)
    ensures p + a == p + b <==> a == b
  {
    assert (p + a)[|p|..] == a && (p + b)[|p|..] == b;
  }

  /** A piece that does not continue the stream and leaves the checksum right all the same:
      the last one again, of a payload that fills its area in whole blocks, with less of it
      than the head is long. */
  lemma LastPieceAgain(head: Bytes, payload: Bytes, attr: nat, data: Bytes)
    requires ValidHead(head, attr) && |payload| % READ_BLOCK == 0
    requires 0 < |data| < |head| && |data| < |payload| && data == payload[|payload| - |data|..]
    ensures var end := |head| + |payload|;
            var h := HeadAt(head, payload, attr, end);
            && h.digest.Some?
            && Update(h.digest.value, h, end - |data|, data, payload).fed == Parsed(head, attr).received + payload
  {
    hide ValidHead, Walk, Update, HeadAt;
    var end := |head| + |payload|;
    assert payload[..|payload|] == payload;
    FedRight(head, payload, attr, end, end - |data|, data, payload);
  }

  /** Sending the first piece of payload again feeds its bytes a second time. */
  lemma ResentPieceIsFedTwice(head: Bytes, payload: Bytes, attr: nat, m: nat, data: Bytes, mem: Bytes)
    requires ValidHead(head, attr) && |head| < m <= |head| + |payload|
    requires data != [] && data <= payload
    ensures var h := HeadAt(head, payload, attr, m);
            && h.digest.Some?
            && Update(h.digest.value, h, |head|, data, mem).fed
                 == Parsed(head, attr).received + payload[..m - |head|] + data
            && Update(h.digest.value, h, |head|, data, mem).fed != Parsed(head, attr).received + data
  {
    FedFrom(head, payload, attr, m, |head|, data, mem);
    hide ValidHead, Walk, Update, HeadAt;
  }

  /** A piece moves the device to the next prefix exactly when its length fits 16 bits.  A
      longer one is cut, and where it begins behind the head it is accepted all the same. */
  lemma LongPiecesAreCut(d: Device, head: Bytes, payload: Bytes, attr: nat, bs: nat, k: nat, chunk: Bytes)
    requires Reached(d, head, payload, attr, bs, k) && |head| + |payload| < 0x1_0000_0000
    requires chunk != [] && k + |chunk| <= |head| + |payload| && chunk == (head + payload)[k..k + |chunk|]
    ensures var (e, ok) := WriteSoftware(d, attr, bs, k, chunk);
            && (Reached(e, head, payload, attr, bs, k + |chunk|) <==> |chunk| <= 65535)
            && (|chunk| <= MAX_PIECE || |head| <= k ==> ok)
  {
    hide Reached, WriteSoftware, HeadAt;
    ReachedBounds(d, head, payload, attr, bs, k);
    if |chunk| <= MAX_PIECE {
      DeviceStep(d, head, payload, attr, bs, k, chunk);
    } else if |head| <= k {
      CutPiece(d, head, payload, attr, bs, k, chunk);
      HeadsDiffer(head, payload, attr, k + |Cast(chunk)|, k + |chunk|);
      OtherHead(WriteSoftware(d, attr, bs, k, chunk).0, head, payload, attr, bs, k + |chunk|);
    } else {
      CutHead(d, head, payload, attr, bs, k, chunk);
    }
  }

  lemma OtherHead(e: Device, head: Bytes, payload: Bytes, attr: nat, bs: nat, n: nat)
    requires ValidHead(head, attr) && n <= |head| + |payload| && e.head != HeadAt(head, payload, attr, n)
    ensures !Reached(e, head, payload, attr, bs, n)
  {
  }

  /** The same where the piece begins inside the head: the digest does not get as far. */
  lemma CutHead(d: Device, head: Bytes, payload: Bytes, attr: nat, bs: nat, k: nat, chunk: Bytes)
    requires Reached(d, head, payload, attr, bs, k) && k < |head|
    requires |chunk| > MAX_PIECE && k + |chunk| <= |head| + |payload| && chunk == (head + payload)[k..k + |chunk|]
    ensures !Reached(WriteSoftware(d, attr, bs, k, chunk).0, head, payload, attr, bs, k + |chunk|)
  {
    hide ValidHead, Walk, Parse, Update, W.Writer.Write, W.Writer.Image;
    var cut := Cast(chunk);
    var u := HeadPart(head, k, |cut|);
    HeadFits(head, attr);
    if cut == [] {
      NothingParsed(head, attr, k);
      assert d.head == After(head, attr, k);
    } else {
      assert Piece(head, k, cut);
      PieceParses(head, attr, k, cut);
    }
    assert |Cast(chunk[u..])| + u <= |cut|;
    if cut != [] && k + u == |head| {
      ParsedIsDone(head, attr);
      var h := Parsed(head, attr);
      var target := Target(|head|, |head|);
      var rest := Cast(chunk[u..]);
      NextIsNear(h, |head|, rest, d.writer.Write(bs, target, rest).mem);
    }
  }

  /** Parsing nothing inside the head changes next to nothing. */
  lemma NothingParsed(head: Bytes, attr: nat, k: nat)
    requires ValidHead(head, attr) && k < |head|
    ensures var s := Parse(After(head, attr, k), attr, k, []);
            s.ok && s.used == 0 && s.head.digest == None
  {
    hide Walk, GoodFields, GetDWord;
    assert head[..k][..k] + [][..0] == head[..k];
    HeadIsLong(head, attr);
  }

  lemma HeadFits(head: Bytes, attr: nat)
    requires ValidHead(head, attr)
    ensures MIN_LEN < |head| <= MAX_LEN
  {
  }

  lemma NextIsNear(h: Head, at: nat, data: Bytes, mem: Bytes)
    requires h.digest.Some? && !h.digest.value.flag && h.Length() == at
    ensures var d := Update(h.digest.value, h, at, data, mem);
            d == h.digest.value || d.next == at + |data|
  {
  }

  lemma CutPiece(d: Device, head: Bytes, payload: Bytes, attr: nat, bs: nat, k: nat, chunk: Bytes)
    requires Reached(d, head, payload, attr, bs, k) && |head| + |payload| < 0x1_0000_0000 && |head| <= k
    requires |chunk| > MAX_PIECE && k + |chunk| <= |head| + |payload| && chunk == (head + payload)[k..k + |chunk|]
    ensures |Cast(chunk)| < |chunk|
    ensures var (e, ok) := WriteSoftware(d, attr, bs, k, chunk);
            ok && e.head == HeadAt(head, payload, attr, k + |Cast(chunk)|)
  {
    hide ValidHead, Walk, Parse, HeadAt, Update, W.Writer.Write, W.Writer.Image;
    var h, cut := HeadAt(head, payload, attr, k), Cast(chunk);
    HeadIsDone(head, payload, attr, k);
    ParseBehindHead(h, attr, k, cut);
    assert chunk[0..] == chunk;
    assert Target(k, |head|) == k - |head|;
    var mem := d.writer.Write(bs, k - |head|, cut).mem;
    if cut == [] {
      EmptyFeedsNothing(h.digest.value, h, k, mem);
    } else {
      RestIsPayload(head, payload, k, chunk, 0);
      assert cut == payload[k - |head|..k - |head| + |cut|];
      UpdateContinues(head, payload, attr, k, cut, mem);
    }
  }

  lemma EmptyFeedsNothing(d: Digest, h: Head, at: nat, mem: Bytes)
    ensures Update(d, h, at, [], mem) == d
  {
  }

  lemma HeadIsDone(head: Bytes, payload: Bytes, attr: nat, k: nat)
    requires ValidHead(head, attr) && |head| <= k <= |head| + |payload|
    ensures var h := HeadAt(head, payload, attr, k);
            h.Done() && h.headLen == h.Length() == |head| && h.digest.Some?
  {
    hide ValidHead, Walk;
    ParsedIsDone(head, attr);
    HeadIsLong(head, attr);
  }

  lemma HeadsDiffer(head: Bytes, payload: Bytes, attr: nat, k: nat, n: nat)
    requires ValidHead(head, attr) && |head| <= k < n <= |head| + |payload|
    ensures HeadAt(head, payload, attr, k) != HeadAt(head, payload, attr, n)
  {
    hide ValidHead, Walk;
    ParsedIsDone(head, attr);
  }
}
