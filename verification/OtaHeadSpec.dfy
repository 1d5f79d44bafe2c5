/** The package head: received in pieces, checked, and walked once for its TLVs. */
module OtaHeadSpec {
  import opened Basics
  import opened OtaBytes

  const MIN_LEN: nat := 12
  const MAX_LEN: nat := 4096
  const BIN_TYPE: nat := 4
  const UPDATE_INFO: nat := 2

  /** The checksum's running state: every byte fed to it, and where the next is due. */
  datatype Digest = Digest(fed: Bytes, flag: bool, next: nat)

  /** received is the stored part of the head buffer, headLen its length (0 before the
      buffer exists), sig the saved signature. */
  datatype Head = Head(received: Bytes, headLen: nat, sig: Option<Bytes>, digest: Option<Digest>, flashType: nat)
  {
    predicate Done() {
      headLen >= MIN_LEN && |received| == headLen
    }

    /** pack_head_get_head_len. */
    function Length(): nat {
      if Done() then headLen else 0
    }
  }

  const EMPTY := Head([], 0, None, None, 0)

  // ---- the TLV walk ----

  datatype Walked = Walked(ok: bool, buf: Bytes, sig: Option<Bytes>, flashType: nat)

  /** pack_head_parse_tlvs: saves and blanks the signature, selects the flash area.  A
      field that would lie behind the buffer counts as malformed. */
  function Walk(buf: Bytes, pos: nat, attr: nat, sig: Option<Bytes>, flashType: nat): (r: Walked)
    requires pos <= |buf|
    ensures |r.buf| == |buf|
    decreases |buf| - pos
  {
    if pos == |buf| then Walked(sig.Some?, buf, sig, flashType)
    else if |buf| - pos < 4 then Walked(false, buf, sig, flashType)
    else
      var attribute, len := GetWord(buf, pos), GetWord(buf, pos + 2);
      var value := pos + 4;
      if |buf| < value + len then Walked(false, buf, sig, flashType)
      else if attribute == attr then
        Walk(Overlay(buf, value, Zeros(len)), value + len, attr,
             if len > 0 then Some(buf[value..value + len]) else None, flashType)
      else if attribute == BIN_TYPE then
        if |buf| < value + 4 || GetDWord(buf, value) >= UPDATE_INFO then Walked(false, buf, sig, flashType)
        else Walk(buf, value + len, attr, sig, GetDWord(buf, value))
      else Walk(buf, value + len, attr, sig, flashType)
  }

  /** The walk, and the checksum that a good one starts with the blanked head. */
  function ParseTlvs(h: Head, attr: nat): (r: (Head, bool))
    requires MIN_LEN <= |h.received|
  {
    var w := Walk(h.received, MIN_LEN, attr, h.sig, h.flashType);
    var v := h.(received := w.buf, sig := w.sig, flashType := w.flashType);
    if w.ok then (v.(digest := Some(Digest(if v.Done() then v.received else [], false, 0))), true)
    else (v, false)
  }

  // ---- incremental parsing ----

  datatype Step = Step(head: Head, ok: bool, used: nat)

  /** Version 0, and a head length that the package and the device allow. */
  predicate GoodFields(received: Bytes)
    requires |received| >= MIN_LEN
  {
    && GetDWord(received, 0) == 0
    && MIN_LEN <= GetDWord(received, 4) < GetDWord(received, 8)
    && GetDWord(received, 4) <= MAX_LEN
  }

  /** pack_head_parse_head_len. */
  function ParseHeadLen(h: Head, at: nat, chunk: Bytes): (r: Step)
    ensures r.used <= |chunk|
    ensures r.ok && at < MIN_LEN ==> r.used == Min(MIN_LEN - at, |chunk|)
  {
    if at >= MIN_LEN then Step(h, true, 0)
    else if at > |h.received| then Step(h, false, 0)
    else
      var copy := Min(MIN_LEN - at, |chunk|);
      var v := h.(received := h.received[..at] + chunk[..copy],
                 headLen := if h.headLen == 0 then MIN_LEN else h.headLen);
      if |v.received| < MIN_LEN then Step(v, true, copy)
      else if !GoodFields(v.received) then Step(v.(received := []), false, copy)
      else Step(v.(headLen := if GetDWord(v.received, 4) > v.headLen then GetDWord(v.received, 4) else v.headLen),
                true, copy)
  }

  /** The part of pack_head_parse behind the fixed fields. */
  function ParseRest(h: Head, attr: nat, at: nat, rest: Bytes, used: nat): (r: Step)
    ensures r.used <= used + |rest|
  {
    if h.headLen < MIN_LEN || (|h.received| < h.headLen && at > |h.received|) then Step(h, false, 0)
    else if at < h.headLen && at <= |h.received| then
      var copy := Min(|rest|, h.headLen - at);
      var v := h.(received := h.received[..at] + rest[..copy]);
      if |v.received| < v.headLen then Step(v, true, copy + used)
      else if GetDWord(v.received, 8) <= v.headLen then Step(v, false, copy + used)
      else
        var (w, ok) := ParseTlvs(v, attr);
        Step(w, ok, copy + used)
    else Step(h, true, 0)
  }

  /** pack_head_parse. */
  function Parse(h: Head, attr: nat, at: nat, chunk: Bytes): (r: Step)
    ensures r.used <= |chunk|
  {
    var f := ParseHeadLen(h, at, chunk);
    if !f.ok then Step(f.head, false, 0)
    else if f.used == |chunk| && |f.head.received| < f.head.headLen then f
    else ParseRest(f.head, attr, at + f.used, chunk[f.used..], f.used)
  }

  // ---- one-shot meaning of a head ----

  /** A head that a device accepts when it arrives in one piece. */
  predicate ValidHead(head: Bytes, attr: nat) {
    && MIN_LEN < |head| && GoodFields(head) && GetDWord(head, 4) == |head|
    && Walk(head, MIN_LEN, attr, None, 0).ok
  }

  /** The head as it stands once parsed. */
  function Parsed(head: Bytes, attr: nat): Head
    requires ValidHead(head, attr)
  {
    var w := Walk(head, MIN_LEN, attr, None, 0);
    Head(w.buf, |head|, w.sig, Some(Digest(w.buf, false, 0)), w.flashType)
  }

  /** The state after the first k bytes of the head. */
  function After(head: Bytes, attr: nat, k: nat): Head
    requires ValidHead(head, attr)
  {
    if k >= |head| then Parsed(head, attr)
    else Head(head[..k], if k == 0 then 0 else if k < MIN_LEN then MIN_LEN else |head|, None, None, 0)
  }

  /** chunk is what the package has from k on: bytes of the head, then of the payload. */
  predicate Piece(head: Bytes, k: nat, chunk: Bytes) {
    forall i | 0 <= i < |chunk| && k + i < |head| :: chunk[i] == head[k + i]
  }

  /** How much of a piece belongs to the head. */
  function HeadPart(head: Bytes, k: nat, n: nat): (u: nat)
    ensures u <= n
  {
    if k >= |head| then 0 else Min(n, |head| - k)
  }

  lemma PieceJoins(head: Bytes, k: nat, chunk: Bytes, copy: nat)
    requires Piece(head, k, chunk) && k + copy <= |head| && copy <= |chunk|
    ensures head[..k] + chunk[..copy] == head[..k + copy]
    ensures Piece(head, k + copy, chunk[copy..])
  {
    forall i | 0 <= i < k + copy
      ensures (head[..k] + chunk[..copy])[i] == head[i]
    {
      if i >= k {
        assert chunk[i - k] == head[k + (i - k)];
      }
    }
    forall i | 0 <= i < |chunk[copy..]| && k + copy + i < |head|
      ensures chunk[copy..][i] == head[k + copy + i]
    {
      assert chunk[copy..][i] == chunk[copy + i];
    }
  }

  /** The fixed fields decide, wherever they were cut. */
  lemma FieldsOfPrefix(head: Bytes, attr: nat)
    requires ValidHead(head, attr)
    ensures |head[..MIN_LEN]| == MIN_LEN && GoodFields(head[..MIN_LEN]) && GetDWord(head[..MIN_LEN], 4) == |head|
    ensures GetDWord(head, 8) > |head|
  {
  }

  lemma FirstPart(head: Bytes, attr: nat, k: nat, chunk: Bytes)
    requires ValidHead(head, attr) && Piece(head, k, chunk) && k < MIN_LEN && chunk != []
    ensures var copy := Min(MIN_LEN - k, |chunk|);
            ParseHeadLen(After(head, attr, k), k, chunk) == Step(After(head, attr, k + copy), true, copy)
  {
    hide Walk, GoodFields, GetDWord;
    var copy := Min(MIN_LEN - k, |chunk|);
    PieceJoins(head, k, chunk, copy);
    FieldsOfPrefix(head, attr);
    assert head[..k][..k] == head[..k];
  }

  lemma SecondPart(head: Bytes, attr: nat, k: nat, rest: Bytes, used: nat)
    requires ValidHead(head, attr) && Piece(head, k, rest) && MIN_LEN <= k
    requires k >= |head| || rest != []
    ensures ParseRest(After(head, attr, k), attr, k, rest, used) ==
            if k >= |head| then Step(After(head, attr, k), true, 0)
            else Step(After(head, attr, k + HeadPart(head, k, |rest|)), true, used + HeadPart(head, k, |rest|))
  {
    hide Walk, GoodFields, GetDWord;
    if k < |head| {
      var copy := HeadPart(head, k, |rest|);
      PieceJoins(head, k, rest, copy);
      FieldsOfPrefix(head, attr);
      assert head[..|head|] == head && head[..k][..k] == head[..k];
      if k + copy == |head| {
        WholeHead(head, attr);
      }
    }
  }

  lemma WholeHead(head: Bytes, attr: nat)
    requires ValidHead(head, attr)
    ensures ParseTlvs(Head(head, |head|, None, None, 0), attr) == (Parsed(head, attr), true)
  {
    hide Walk, GoodFields, GetDWord;
  }

  /** Any cut of the head: each piece takes the parser from one prefix to the next, and
      uses exactly the bytes of the head that it carries. */
  lemma PieceParses(head: Bytes, attr: nat, k: nat, chunk: Bytes)
    requires ValidHead(head, attr) && Piece(head, k, chunk) && chunk != []
    ensures var u := HeadPart(head, k, |chunk|);
            Parse(After(head, attr, k), attr, k, chunk) == Step(After(head, attr, k + u), true, u)
  {
    hide Walk, GoodFields, GetDWord, ParseRest, ParseHeadLen, ValidHead;
    HeadIsLong(head, attr);
    if k < MIN_LEN {
      var copy := Min(MIN_LEN - k, |chunk|);
      FirstPart(head, attr, k, chunk);
      PieceJoins(head, k, chunk, copy);
      if copy < |chunk| {
        SecondPart(head, attr, MIN_LEN, chunk[copy..], copy);
      }
    } else {
      assert chunk[0..] == chunk;
      assert ParseHeadLen(After(head, attr, k), k, chunk) == Step(After(head, attr, k), true, 0) by {
        NoHeadLen(After(head, attr, k), k, chunk);
      }
      SecondPart(head, attr, k, chunk, 0);
    }
  }

  lemma NoHeadLen(h: Head, at: nat, chunk: Bytes)
    requires at >= MIN_LEN
    ensures ParseHeadLen(h, at, chunk) == Step(h, true, 0)
  {
  }

  /** While a head arrives its length is reported as 0, from its last byte on as it is. */
  lemma LengthWhenWhole(head: Bytes, attr: nat, k: nat)
    requires ValidHead(head, attr)
    ensures After(head, attr, k).Length() == if k < |head| then 0 else |head|
  {
    hide GetDWord;
  }

  lemma HeadIsLong(head: Bytes, attr: nat)
    requires ValidHead(head, attr)
    ensures |head| > MIN_LEN
  {
  }
}
