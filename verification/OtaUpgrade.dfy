/** Packing on the host and installing on the device, put together. */
module OtaUpgrade {
  import opened Basics
  import opened OtaBytes
  import P = OtaPackSpec
  import D = OtaDeviceSpec
  import opened OtaWriter
  import opened OtaPacker
  import opened OtaDevice

  /** Any way of cutting a package into pieces of 1 to 65535 bytes. */
  ghost predicate Cuts(cut: Bytes -> seq<Bytes>) {
    forall x :: D.Concat(cut(x)) == x && D.Pieces(cut(x))
  }

  /** Only the signature's length matters to whether a package is deliverable. */
  lemma AnySignature(ts: seq<P.Tlv>, attr: nat, a: Bytes, b: Bytes, payload: Bytes, room: nat)
    requires |a| == |b| && D.Deliverable(ts, attr, a, payload, room)
    ensures D.Deliverable(ts, attr, b, payload, room)
  {
    hide P.EncodeAll, P.Encode;
    P.EncodeAppend(ts, P.Tlv(attr, a));
    P.EncodeAppend(ts, P.Tlv(attr, b));
    assert |P.Encode(P.Tlv(attr, a))| == |P.Encode(P.Tlv(attr, b))|;
  }

  /** A configured TLV for the flash area. */
  predicate NamesArea(c: ConfigTlv) {
    c.values != [] && c.attr.Some? && c.attr.value % 0x1_0000 == 4
  }

  /** The last one consists of one integer of four bytes, which is area. */
  ghost predicate Selects(cs: seq<ConfigTlv>, area: nat) {
    area < 2 && exists before, after ::
      cs == before + [ConfigTlv(Some(4), [Integer(area, Some(4))])] + after && NoneNames(after)
  }

  predicate NoneNames(cs: seq<ConfigTlv>) {
    forall c | c in cs :: !NamesArea(c)
  }

  lemma {:induction false} NoneNamed(cs: seq<ConfigTlv>)
    requires NoneNames(cs)
    ensures forall t | t in Tlvs(cs) :: P.Attribute(t) != 4
  {
    hide ValuesBytes;
    if cs != [] {
      assert cs[0] in cs && forall c | c in cs[1..] :: c in cs;
      NoneNamed(cs[1..]);
    }
  }

  /** The area a configuration asks for is the one the device reads from its TLVs, and area 0
      when it asks for none. */
  lemma AreaOf(cs: seq<ConfigTlv>, attr: nat, area: nat)
    requires P.ValidTlvs(Tlvs(cs), attr) && attr != 4
    ensures Selects(cs, area) ==> P.FlashTypeOf(Tlvs(cs), attr, 0) == area
    ensures NoneNames(cs) ==> P.FlashTypeOf(Tlvs(cs), attr, 0) == 0
  {
    if NoneNames(cs) {
      NoneNamed(cs);
      P.NoArea(Tlvs(cs), attr, 0);
    }
    if Selects(cs, area) {
      var before, after :|
        cs == before + [ConfigTlv(Some(4), [Integer(area, Some(4))])] + after && NoneNames(after);
      var c := ConfigTlv(Some(4), [Integer(area, Some(4))]);
      hide P.FlashTypeOf, DWord, GetDWord, ValuesBytes;
      TlvsJoin(before + [c], after);
      TlvsJoin(before, [c]);
      var t := P.Tlv(4, ValuesBytes(c.values));
      assert Tlvs([c]) == [t] by { OneAlone(c); }
      NoneNamed(after);
      P.LastArea(Tlvs(before), t, Tlvs(after), attr, 0);
      AreaValue(area);
    }
  }

  lemma OneAlone(c: ConfigTlv)
    requires c.values != [] && c.attr.Some?
    ensures Tlvs([c]) == [P.Tlv(c.attr.value, ValuesBytes(c.values))]
  {
    assert [c][1..] == [];
  }

  lemma AreaValue(area: nat)
    requires area < 2
    ensures var b := ValuesBytes([Integer(area, Some(4))]); |b| == 4 && GetDWord(b, 0) == area
  {
    hide GetDWord, ValueBytes;
    var v := Integer(area, Some(4));
    ValueReads(area, 4, []);
    assert [v][1..] == [] && ValuesBytes([v]) == ValueBytes(v) + ValuesBytes([]);
    assert ValueBytes(v) + [] == ValueBytes(v) && ValueBytes(v)[0..4] == ValueBytes(v);
    FieldsAreBigEndian(ValueBytes(v), 0);
    assert area % Power256(4) == area by {
      assert Power256(4) == 0x100 * Power256(3);
    }
  }

  /** What the host packs, the device installs: for every harmless configuration,
      every payload, every cut and every signature scheme whose check accepts what it
      signs, the download is accepted, flash holds the payload, and the device has selected
      the flash area that the configuration asks for. */
  method PackAndInstall(cs: seq<ConfigTlv>, alg: Algorithm, payload: Bytes, flash: Flash,
                        cut: Bytes -> seq<Bytes>, check: (Bytes, Bytes) -> bool)
    returns (ok: bool, area: nat)
    requires Harmless(cs) && alg.Valid() && flash.Valid() && Cuts(cut)
    requires D.Deliverable(Tlvs(cs), alg.attr, Zeros(alg.size), payload, |flash.mem|)
    requires forall x :: check(x, alg.sign(x))
    modifies flash
    ensures ok && flash.Valid() && flash.mem == payload + old(flash.mem)[|payload|..]
    ensures forall a :: Selects(cs, a) ==> area == a
    ensures NoneNames(cs) ==> area == 0
  {
    assert P.ValidTlvs(Tlvs(cs), alg.attr) && alg.attr != 4;
    forall a
      ensures Selects(cs, a) ==> P.FlashTypeOf(Tlvs(cs), alg.attr, 0) == a
    {
      AreaOf(cs, alg.attr, a);
    }
    AreaOf(cs, alg.attr, 0);
    hide P.FlashTypeOf, Selects, NoneNames;
    hide D.Deliverable, Tlvs, Harmless, RawHead, Body, P.HeadBytes, D.Concat;
    var file, fed := MakeSoftware(0, cs, alg, payload);
    PackedExact(0, cs, alg.attr, Zeros(alg.size), payload);
    AnySignature(Tlvs(cs), alg.attr, Zeros(alg.size), alg.sign(fed), payload, |flash.mem|);
    ok, area := Download(flash, alg.attr, cut(file), |file|, check, Tlvs(cs), alg.sign(fed), payload);
  }
}
