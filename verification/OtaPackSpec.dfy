/** What the host packs, and that the device's TLV walk reads it back. */
module OtaPackSpec {
  import opened Basics
  import opened OtaBytes
  import opened OtaHeadSpec

  datatype Tlv = Tlv(attr: nat, value: Bytes)

  /** The attribute as the two bytes of the field carry it. */
  function Attribute(t: Tlv): (a: nat)
    ensures a < 0x1_0000
  {
    t.attr % 0x1_0000
  }

  function Encode(t: Tlv): (r: Bytes)
    ensures |r| == 4 + |t.value|
  {
    Word(t.attr) + Word(|t.value|) + t.value
  }

  function EncodeAll(ts: seq<Tlv>): Bytes {
    if ts == [] then [] else Encode(ts[0]) + EncodeAll(ts[1..])
  }

  /** TLVs that fit their length field; a flash area must be one of the two images. */
  predicate ValidTlv(t: Tlv, attr: nat) {
    && |t.value| < 0x1_0000
    && (Attribute(t) == BIN_TYPE && attr != BIN_TYPE ==> |t.value| == 4 && GetDWord(t.value, 0) < UPDATE_INFO)
  }

  predicate ValidTlvs(ts: seq<Tlv>, attr: nat) {
    forall t | t in ts :: ValidTlv(t, attr)
  }

  function Blank(t: Tlv, attr: nat): Tlv {
    if Attribute(t) == attr then Tlv(t.attr, Zeros(|t.value|)) else t
  }

  function BlankAll(ts: seq<Tlv>, attr: nat): seq<Tlv> {
    if ts == [] then [] else [Blank(ts[0], attr)] + BlankAll(ts[1..], attr)
  }

  /** The signature after ts: the last one wins, an empty one clears it. */
  function SignatureOf(ts: seq<Tlv>, attr: nat, sig: Option<Bytes>): Option<Bytes> {
    if ts == [] then sig else SignatureOf(ts[1..], attr, NextSignature(ts[0], attr, sig))
  }

  function NextFlashType(t: Tlv, attr: nat, flashType: nat): nat
    requires ValidTlv(t, attr)
  {
    if Attribute(t) == BIN_TYPE && attr != BIN_TYPE then GetDWord(t.value, 0) else flashType
  }

  function NextSignature(t: Tlv, attr: nat, sig: Option<Bytes>): Option<Bytes> {
    if Attribute(t) != attr then sig else if t.value == [] then None else Some(t.value)
  }

  function FlashTypeOf(ts: seq<Tlv>, attr: nat, flashType: nat): nat
    requires ValidTlvs(ts, attr)
  {
    if ts == [] then flashType else FlashTypeOf(ts[1..], attr, NextFlashType(ts[0], attr, flashType))
  }

  /** The last TLV that names a flash area selects it. */
  lemma {:induction false} LastArea(before: seq<Tlv>, t: Tlv, after: seq<Tlv>, attr: nat, flashType: nat)
    requires ValidTlvs(before + [t] + after, attr) && attr != BIN_TYPE && Attribute(t) == BIN_TYPE
    requires forall u | u in after :: Attribute(u) != BIN_TYPE
    ensures |t.value| == 4 && FlashTypeOf(before + [t] + after, attr, flashType) == GetDWord(t.value, 0)
  {
    var ts := before + [t] + after;
    assert t in ts && ValidTlv(t, attr);
    if before == [] {
      assert ts[0] == t && ts[1..] == after;
      assert forall u | u in after :: u in ts;
      NoArea(after, attr, GetDWord(t.value, 0));
    } else {
      assert ts[0] == before[0] && ts[1..] == before[1..] + [t] + after;
      assert forall u | u in ts[1..] :: u in ts;
      LastArea(before[1..], t, after, attr, NextFlashType(ts[0], attr, flashType));
    }
  }

  lemma {:induction false} NoArea(ts: seq<Tlv>, attr: nat, flashType: nat)
    requires ValidTlvs(ts, attr) && forall u | u in ts :: Attribute(u) != BIN_TYPE
    ensures FlashTypeOf(ts, attr, flashType) == flashType
  {
    if ts != [] {
      assert ts[0] in ts && forall u | u in ts[1..] :: u in ts;
      NoArea(ts[1..], attr, flashType);
    }
  }

  lemma {:induction false} AreaAppend(ts: seq<Tlv>, t: Tlv, attr: nat, flashType: nat)
    requires ValidTlvs(ts, attr) && ValidTlvs(ts + [t], attr) && Attribute(t) != BIN_TYPE
    ensures FlashTypeOf(ts + [t], attr, flashType) == FlashTypeOf(ts, attr, flashType)
  {
    if ts == [] {
      assert ts + [t] == [t];
    } else {
      assert ts[0] in ts && (ts + [t])[1..] == ts[1..] + [t];
      assert forall u | u in ts[1..] :: u in ts;
      assert forall u | u in ts[1..] + [t] :: u in ts + [t];
      AreaAppend(ts[1..], t, attr, NextFlashType(ts[0], attr, flashType));
    }
  }

  /** The fields of one encoded TLV where the walk looks for them. */
  lemma FieldsRead(front: Bytes, t: Tlv, back: Bytes)
    requires |t.value| < 0x1_0000
    ensures var buf, pos := front + Encode(t) + back, |front|;
            && GetWord(buf, pos) == Attribute(t) && GetWord(buf, pos + 2) == |t.value|
            && buf[pos + 4..pos + 4 + |t.value|] == t.value
    ensures |t.value| == 4 ==> GetDWord(front + Encode(t) + back, |front| + 4) == GetDWord(t.value, 0)
  {
    var buf, pos := front + Encode(t) + back, |front|;
    var e := Encode(t);
    assert buf[pos..pos + |e|] == e;
    assert e[0..2] == Word(t.attr) && e[2..4] == Word(|t.value|) && e[4..] == t.value;
    assert buf[pos..pos + 2] == buf[pos..pos + |e|][0..2] && buf[pos + 2..pos + 4] == buf[pos..pos + |e|][2..4];
    assert Word(t.attr) == Word(Attribute(t)) by { WordMod(t.attr); }
    WordRoundTrip(Attribute(t), buf, pos);
    WordRoundTrip(|t.value|, buf, pos + 2);
    assert buf[pos + 4..pos + 4 + |t.value|] == buf[pos..pos + |e|][4..];
    if |t.value| == 4 {
      assert forall i | 0 <= i < 4 :: buf[pos + 4 + i] == t.value[i];
      assert buf[pos + 4] == t.value[0] && buf[pos + 5] == t.value[1]
             && buf[pos + 6] == t.value[2] && buf[pos + 7] == t.value[3];
    }
  }

  lemma WordMod(v: nat)
    ensures Word(v) == Word(v % 0x1_0000)
  {
    var q := v / 0x1_0000;
    assert v == q * 0x1_0000 + v % 0x1_0000;
    assert v / 0x100 == q * 0x100 + v % 0x1_0000 / 0x100;
  }

  lemma BlankValue(front: Bytes, t: Tlv, back: Bytes)
    ensures Overlay(front + Encode(t) + back, |front| + 4, Zeros(|t.value|))
         == front + Encode(Tlv(t.attr, Zeros(|t.value|))) + back
  {
    var buf := front + Encode(t) + back;
    var z := Zeros(|t.value|);
    var lead := front + Word(t.attr) + Word(|t.value|);
    assert buf == lead + t.value + back;
    assert buf[..|front| + 4] == lead && buf[|front| + 4 + |z|..] == back;
    assert front + Encode(Tlv(t.attr, z)) + back == lead + z + back;
  }

  /** The walk over encoded TLVs: it ends, reads every TLV once, blanks the signatures
      where they stand and changes nothing else. */
  lemma {:induction false} WalkEncoded(front: Bytes, ts: seq<Tlv>, attr: nat, sig: Option<Bytes>, flashType: nat)
    requires ValidTlvs(ts, attr)
    ensures Walk(front + EncodeAll(ts), |front|, attr, sig, flashType) ==
            var s := SignatureOf(ts, attr, sig);
            Walked(s.Some?, front + EncodeAll(BlankAll(ts, attr)), s, FlashTypeOf(ts, attr, flashType))
    decreases |ts|
  {
    if ts == [] {
      assert front + EncodeAll(ts) == front;
      assert front + EncodeAll(BlankAll(ts, attr)) == front;
    } else {
      WalkOne(front, ts, attr, sig, flashType);
    }
  }

  /** One turn of the walk, its fields being known. */
  lemma WalkTurn(buf: Bytes, pos: nat, attr: nat, sig: Option<Bytes>, flashType: nat, a: nat, value: Bytes)
    requires pos + 4 + |value| <= |buf| && buf[pos + 4..pos + 4 + |value|] == value
    requires GetWord(buf, pos) == a && GetWord(buf, pos + 2) == |value|
    requires a == BIN_TYPE && a != attr ==> |value| == 4 && GetDWord(buf, pos + 4) < UPDATE_INFO
    ensures Walk(buf, pos, attr, sig, flashType) ==
            var next := pos + 4 + |value|;
            if a == attr then
              Walk(Overlay(buf, pos + 4, Zeros(|value|)), next, attr,
                   if value == [] then None else Some(value), flashType)
            else if a == BIN_TYPE then Walk(buf, next, attr, sig, GetDWord(buf, pos + 4))
            else Walk(buf, next, attr, sig, flashType)
  {
    hide GetWord, GetDWord, Overlay;
  }

  /** One turn of the walk over an encoded TLV. */
  lemma WalkStep(front: Bytes, t: Tlv, back: Bytes, attr: nat, sig: Option<Bytes>, flashType: nat)
    requires ValidTlv(t, attr)
    ensures Walk(front + Encode(t) + back, |front|, attr, sig, flashType) ==
            Walk(front + Encode(Blank(t, attr)) + back, |front| + |Encode(t)|, attr,
                 NextSignature(t, attr, sig), NextFlashType(t, attr, flashType))
  {
    hide Encode, Overlay, GetWord, GetDWord, Walk;
    var buf := front + Encode(t) + back;
    FieldsRead(front, t, back);
    BlankValue(front, t, back);
    WalkTurn(buf, |front|, attr, sig, flashType, Attribute(t), t.value);
  }

  lemma {:induction false} WalkOne(front: Bytes, ts: seq<Tlv>, attr: nat, sig: Option<Bytes>, flashType: nat)
    requires ts != [] && ValidTlvs(ts, attr)
    ensures Walk(front + EncodeAll(ts), |front|, attr, sig, flashType) ==
            var s := SignatureOf(ts, attr, sig);
            Walked(s.Some?, front + EncodeAll(BlankAll(ts, attr)), s, FlashTypeOf(ts, attr, flashType))
    decreases |ts|, 0
  {
    hide Walk, Encode, NextSignature, NextFlashType;
    var t, back := ts[0], EncodeAll(ts[1..]);
    var b := Blank(t, attr);
    assert ValidTlv(t, attr);
    WalkStep(front, t, back, attr, sig, flashType);
    WalkEncoded(front + Encode(b), ts[1..], attr, NextSignature(t, attr, sig), NextFlashType(t, attr, flashType));
    Regroup(front, Encode(t), back);
    Regroup(front, Encode(b), back);
    Regroup(front, Encode(b), EncodeAll(BlankAll(ts[1..], attr)));
    BlankLength(t, attr);
  }

  /** A TLV that names an area other than the two images ends the walk, whatever comes before
      and behind it. */
  lemma {:induction false} BadAreaRefused(front: Bytes, ts: seq<Tlv>, t: Tlv, back: Bytes, attr: nat,
                                          sig: Option<Bytes>, flashType: nat)
    requires ValidTlvs(ts, attr) && attr != BIN_TYPE
    requires Attribute(t) == 4 && |t.value| == 4 && GetDWord(t.value, 0) >= 2
    ensures !Walk(front + EncodeAll(ts) + (Encode(t) + back), |front|, attr, sig, flashType).ok
    decreases |ts|
  {
    hide Walk, Encode, NextSignature, NextFlashType, GetDWord;
    var tail := Encode(t) + back;
    if ts == [] {
      NoFront(front, Encode(t), back);
      FieldsRead(front, t, back);
      AreaTurn(front + Encode(t) + back, |front|, attr, sig, flashType);
    } else {
      var u, b := ts[0], Blank(ts[0], attr);
      assert ValidTlv(u, attr) && forall x | x in ts[1..] :: x in ts;
      WalkStep(front, u, EncodeAll(ts[1..]) + tail, attr, sig, flashType);
      BlankLength(u, attr);
      Nested(front, Encode(u), EncodeAll(ts[1..]), tail);
      Nested(front, Encode(b), EncodeAll(ts[1..]), tail);
      BadAreaRefused(front + Encode(b), ts[1..], t, back, attr, NextSignature(u, attr, sig),
                     NextFlashType(u, attr, flashType));
    }
  }

  lemma NoFront(front: Bytes, t: Bytes, back: Bytes)
    ensures front + [] + (t + back) == front + t + back
  {
  }

  lemma Nested(a: Bytes, b: Bytes, c: Bytes, d: Bytes)
    ensures a + (b + c) + d == a + b + (c + d) && a + b + c + d == a + b + (c + d)
  {
  }

  lemma AreaTurn(buf: Bytes, pos: nat, attr: nat, sig: Option<Bytes>, flashType: nat)
    requires pos + 8 <= |buf| && GetWord(buf, pos) == 4 && GetWord(buf, pos + 2) == 4 && attr != 4
    requires GetDWord(buf, pos + 4) >= 2
    ensures !Walk(buf, pos, attr, sig, flashType).ok
  {
    hide GetWord, GetDWord;
  }

  lemma Regroup(a: Bytes, b: Bytes, c: Bytes)
    ensures a + b + c == a + (b + c)
  {
  }

  lemma BlankLength(t: Tlv, attr: nat)
    ensures |Encode(Blank(t, attr))| == |Encode(t)|
  {
  }

  // ---- the packed head ----

  /** Head and total length in front of TLVs, as the packer patches them in. */
  function Fields(version: nat, ts: seq<Tlv>, payloadLen: nat): (r: Bytes)
    ensures |r| == MIN_LEN
  {
    var len := MIN_LEN + |EncodeAll(ts)|;
    DWord(version) + DWord(len) + DWord(len + payloadLen)
  }

  function HeadBytes(version: nat, ts: seq<Tlv>, payloadLen: nat): (r: Bytes)
    ensures |r| == MIN_LEN + |EncodeAll(ts)|
  {
    Fields(version, ts, payloadLen) + EncodeAll(ts)
  }

  lemma {:induction false} BlankAllLength(ts: seq<Tlv>, attr: nat)
    ensures |EncodeAll(BlankAll(ts, attr))| == |EncodeAll(ts)|
  {
    if ts != [] {
      BlankAllLength(ts[1..], attr);
    }
  }

  lemma FieldsDecode(version: nat, ts: seq<Tlv>, payloadLen: nat)
    requires version < 0x1_0000_0000 && MIN_LEN + |EncodeAll(ts)| + payloadLen < 0x1_0000_0000
    ensures var h := HeadBytes(version, ts, payloadLen);
            && GetDWord(h, 0) == version && GetDWord(h, 4) == |h| && GetDWord(h, 8) == |h| + payloadLen
  {
    hide DWord, EncodeAll;
    var h := HeadBytes(version, ts, payloadLen);
    var len := MIN_LEN + |EncodeAll(ts)|;
    assert h[0..4] == DWord(version) && h[4..8] == DWord(len) && h[8..12] == DWord(len + payloadLen);
    DWordRoundTrip(version, h, 0);
    DWordRoundTrip(len, h, 4);
    DWordRoundTrip(len + payloadLen, h, 8);
  }

  /** A packed head of version 0 that fits the device's limit is valid, and parsing it
      leaves the head the packer hashed, with the signature saved. */
  lemma PackedHeadParses(ts: seq<Tlv>, attr: nat, payloadLen: nat)
    requires ValidTlvs(ts, attr) && SignatureOf(ts, attr, None).Some?
    requires 0 < payloadLen && MIN_LEN + |EncodeAll(ts)| <= MAX_LEN
    requires MIN_LEN + |EncodeAll(ts)| + payloadLen < 0x1_0000_0000
    ensures var h := HeadBytes(0, ts, payloadLen);
            && ValidHead(h, attr)
            && Parsed(h, attr).received == HeadBytes(0, BlankAll(ts, attr), payloadLen)
            && Parsed(h, attr).sig == SignatureOf(ts, attr, None)
            && Parsed(h, attr).flashType == FlashTypeOf(ts, attr, 0)
  {
    hide Walk, GetDWord, SignatureOf, DWord;
    FieldsDecode(0, ts, payloadLen);
    WalkEncoded(Fields(0, ts, payloadLen), ts, attr, None, 0);
    BlankAllLength(ts, attr);
    SomeTlv(ts, attr);
  }

  lemma SomeTlv(ts: seq<Tlv>, attr: nat)
    requires SignatureOf(ts, attr, None).Some?
    ensures |EncodeAll(ts)| > 0
  {
  }

  // ---- a whole package ----

  /** The packer's TLVs: the configured ones, then the signature's. */
  function Signed(ts: seq<Tlv>, attr: nat, signature: Bytes): seq<Tlv> {
    ts + [Tlv(attr, signature)]
  }

  /** No configured TLV uses the checksum's attribute. */
  predicate Unsigned(ts: seq<Tlv>, attr: nat) {
    forall t | t in ts :: Attribute(t) != attr
  }

  lemma {:induction false} SignedReads(ts: seq<Tlv>, attr: nat, signature: Bytes)
    requires Unsigned(ts, attr) && attr < 0x1_0000 && signature != []
    ensures SignatureOf(Signed(ts, attr, signature), attr, None) == Some(signature)
    ensures BlankAll(Signed(ts, attr, signature), attr) == Signed(ts, attr, Zeros(|signature|))
  {
    var last := Tlv(attr, signature);
    if ts == [] {
      assert [] + [last] == [last];
      assert BlankAll([last], attr) == [Blank(last, attr)] + BlankAll([], attr);
    } else {
      SignedReads(ts[1..], attr, signature);
      assert Signed(ts, attr, signature)[1..] == Signed(ts[1..], attr, signature);
      assert ts[0] in ts;
      assert Signed(ts, attr, Zeros(|signature|)) == [ts[0]] + Signed(ts[1..], attr, Zeros(|signature|));
    }
  }

  lemma {:induction false} EncodeAppend(ts: seq<Tlv>, t: Tlv)
    ensures EncodeAll(ts + [t]) == EncodeAll(ts) + Encode(t)
  {
    hide Encode;
    if ts == [] {
      assert ts + [t] == [t];
      assert EncodeAll([t]) == Encode(t) + EncodeAll([]);
    } else {
      EncodeAppend(ts[1..], t);
      assert (ts + [t])[1..] == ts[1..] + [t];
      Regroup(Encode(ts[0]), EncodeAll(ts[1..]), Encode(t));
    }
  }
}
