/** The host script: writes head, TLVs and payload, patches lengths and signature in
    afterwards, and hashes the head while the signature is still blank. */
module OtaPacker {
  import opened Basics
  import opened OtaBytes
  import opened OtaHeadSpec
  import opened P = OtaPackSpec

  /** A value of the configuration; the length of an integer may be missing. */
  datatype Value = Text(data: Bytes) | Integer(value: nat, len: Option<int>) | Unknown

  /** A TLV of the configuration; its values are written one behind the other. */
  datatype ConfigTlv = ConfigTlv(attr: Option<nat>, values: seq<Value>)

  const PIECE: nat := 4096

  /** RET_XML_CONFIG_ERR, which get_value returns where its caller expects a length. */
  const CONFIG_ERR: nat := 7

  /** An integer whose length is missing or too large: nothing is written, and the error
      code counts as the number of its bytes. */
  predicate Oversized(v: Value) {
    v.Integer? && (v.len.None? || v.len.value > 4)
  }

  /** A value that ends the writing of all TLVs. */
  predicate Stops(v: Value) {
    v.Unknown? || (v.Integer? && v.len.Some? && v.len.value < 0)
  }

  /** The bytes that a value stands for; a bad one stands for none. */
  function ValueBytes(v: Value): Bytes {
    match v
    case Text(data) => data
    case Integer(value, Some(n)) => if 0 <= n <= 4 then DWord(value)[4 - n..] else []
    case _ => []
  }

  function ValuesBytes(vs: seq<Value>): Bytes {
    if vs == [] then [] else ValueBytes(vs[0]) + ValuesBytes(vs[1..])
  }

  /** The TLVs a configuration asks for; one without attribute or values is left out. */
  function Tlvs(cs: seq<ConfigTlv>): seq<Tlv> {
    if cs == [] then [] else OneTlv(cs[0]) + Tlvs(cs[1..])
  }

  function OneTlv(c: ConfigTlv): seq<Tlv> {
    if c.values == [] || c.attr.None? then [] else [Tlv(c.attr.value, ValuesBytes(c.values))]
  }

  function Power256(n: nat): (r: nat)
    ensures r > 0
  {
    if n == 0 then 1 else 0x100 * Power256(n - 1)
  }

  /** An integer of n bytes is its value modulo 256^n, the most significant byte first; text is
      its bytes. */
  lemma ValueReads(v: nat, n: nat, data: Bytes)
    requires n <= 4
    ensures var b := ValueBytes(Integer(v, Some(n)));
            |b| == n && BigEndian(b) == v % Power256(n)
    ensures ValueBytes(Text(data)) == data
  {
    LowBytes(v);
    assert Power256(1) == 0x100 && Power256(2) == 0x1_0000 && Power256(3) == 0x100_0000 && Power256(4) == 0x1_0000_0000
    by {
      assert Power256(1) == 0x100 * Power256(0) && Power256(2) == 0x100 * Power256(1);
      assert Power256(3) == 0x100 * Power256(2) && Power256(4) == 0x100 * Power256(3);
    }
    var w, b := DWord(v), ValueBytes(Integer(v, Some(n)));
    assert b == w[4 - n..];
    assert forall i | 0 <= i < n :: b[i] == w[4 - n + i];
    BytesAddUp(b);
  }

  lemma BytesAddUp(b: Bytes)
    requires |b| <= 4
    ensures BigEndian(b) == match |b|
                            case 0 => 0
                            case 1 => b[0] as nat
                            case 2 => b[0] as nat * 0x100 + b[1]
                            case 3 => b[0] as nat * 0x1_0000 + b[1] as nat * 0x100 + b[2]
                            case _ => b[0] as nat * 0x100_0000 + b[1] as nat * 0x1_0000 + b[2] as nat * 0x100 + b[3]
  {
    hide BigEndian;
    if |b| > 0 { BigEndianNext(b, 0); }
    if |b| > 1 { BigEndianNext(b, 1); }
    if |b| > 2 { BigEndianNext(b, 2); }
    if |b| > 3 { BigEndianNext(b, 3); }
    assert b[..|b|] == b;
    Nothing();
  }

  lemma Nothing()
    ensures BigEndian([]) == 0
  {
  }

  lemma LowBytes(v: nat)
    ensures v / 0x100 % 0x100 * 0x100 + v % 0x100 == v % 0x1_0000
    ensures v / 0x1_0000 % 0x100 * 0x1_0000 + v % 0x1_0000 == v % 0x100_0000
    ensures v / 0x100_0000 % 0x100 * 0x100_0000 + v % 0x100_0000 == v % 0x1_0000_0000
  {
    TwoBytes(v);
    ThreeBytes(v);
    FourBytes(v);
  }

  lemma TwoBytes(v: nat)
    ensures v / 0x100 % 0x100 * 0x100 + v % 0x100 == v % 0x1_0000
  {
    assert v / 0x100 / 0x100 == v / 0x1_0000;
  }

  lemma ThreeBytes(v: nat)
    ensures v / 0x1_0000 % 0x100 * 0x1_0000 + v % 0x1_0000 == v % 0x100_0000
  {
    assert v / 0x1_0000 / 0x100 == v / 0x100_0000;
  }

  lemma FourBytes(v: nat)
    ensures v / 0x100_0000 % 0x100 * 0x100_0000 + v % 0x100_0000 == v % 0x1_0000_0000
  {
    assert v / 0x100_0000 / 0x100 == v / 0x1_0000_0000;
  }

  /** The values of a TLV stand one behind the other. */
  lemma {:induction false} ValuesJoin(a: seq<Value>, b: seq<Value>)
    ensures ValuesBytes(a + b) == ValuesBytes(a) + ValuesBytes(b)
  {
    hide ValueBytes;
    if a == [] {
      assert a + b == b;
    } else {
      assert (a + b)[1..] == a[1..] + b;
      ValuesJoin(a[1..], b);
      Regroup(ValueBytes(a[0]), ValuesBytes(a[1..]), ValuesBytes(b));
    }
  }

  lemma {:induction false} TlvsJoin(a: seq<ConfigTlv>, b: seq<ConfigTlv>)
    ensures Tlvs(a + b) == Tlvs(a) + Tlvs(b)
  {
    hide OneTlv;
    if a == [] {
      assert a + b == b;
    } else {
      assert (a + b)[1..] == a[1..] + b;
      TlvsJoin(a[1..], b);
    }
  }

  // ---- what is written, for any configuration ----

  function Counted(v: Value): nat {
    if Oversized(v) then CONFIG_ERR else |ValueBytes(v)|
  }

  function CountedAll(vs: seq<Value>): nat {
    if vs == [] then 0 else Counted(vs[0]) + CountedAll(vs[1..])
  }

  /** No value of vs stops. */
  predicate Runs(vs: seq<Value>) {
    vs == [] || (!Stops(vs[0]) && Runs(vs[1..]))
  }

  /** The bytes in front of the first value that stops. */
  function Until(vs: seq<Value>): Bytes {
    if vs == [] || Stops(vs[0]) then [] else ValueBytes(vs[0]) + Until(vs[1..])
  }

  /** The bytes behind it, which are lost. */
  function Beyond(vs: seq<Value>): Bytes {
    if vs == [] then [] else if Stops(vs[0]) then ValuesBytes(vs[1..]) else Beyond(vs[1..])
  }

  /** A TLV behind which no other is written. */
  predicate Halts(c: ConfigTlv) {
    c.values != [] && (c.attr.None? || !Runs(c.values))
  }

  /** A TLV's length is patched in when its values are through. */
  function WrittenTlv(c: ConfigTlv): Bytes {
    if c.values == [] || c.attr.None? then []
    else Word(c.attr.value) + Word(if Runs(c.values) then CountedAll(c.values) else 0) + Until(c.values)
  }

  function Written(cs: seq<ConfigTlv>): Bytes {
    if cs == [] then [] else WrittenTlv(cs[0]) + if Halts(cs[0]) then [] else Written(cs[1..])
  }

  // ---- when that is what the configuration asks for ----

  function OversizedCount(vs: seq<Value>): nat {
    if vs == [] then 0 else (if Oversized(vs[0]) then 1 else 0) + OversizedCount(vs[1..])
  }

  /** Nothing that halts comes before a TLV that is asked for.  The one that halts has no
      attribute, or no bytes behind the bad value and in front of it as many as its zero
      length field stands for; in the others the lengths that are too large cancel out in
      sixteen bits. */
  predicate Harmless(cs: seq<ConfigTlv>) {
    cs == [] ||
    if Halts(cs[0]) then
      && Tlvs(cs[1..]) == []
      && (cs[0].attr.None? || (Beyond(cs[0].values) == [] && |Until(cs[0].values)| % 0x1_0000 == 0))
    else
      OversizedCount(cs[0].values) % 0x1_0000 == 0 && Harmless(cs[1..])
  }

  predicate GoodTlv(c: ConfigTlv) {
    c.values == [] || (c.attr.Some? && forall v | v in c.values :: !Stops(v) && !Oversized(v))
  }

  /** A configuration without errors. */
  predicate GoodConfig(cs: seq<ConfigTlv>) {
    forall c | c in cs :: GoodTlv(c)
  }

  lemma {:induction false} UntilBeyond(vs: seq<Value>)
    ensures ValuesBytes(vs) == Until(vs) + Beyond(vs)
    ensures Runs(vs) ==> Beyond(vs) == []
  {
    hide ValueBytes, Stops;
    if vs != [] {
      StoppedBytes(vs[0]);
      UntilBeyond(vs[1..]);
      Regroup(ValueBytes(vs[0]), Until(vs[1..]), Beyond(vs[1..]));
    }
  }

  lemma StoppedBytes(v: Value)
    ensures Stops(v) || Oversized(v) ==> ValueBytes(v) == []
  {
  }

  lemma {:induction false} CountedTooMuch(vs: seq<Value>)
    ensures CountedAll(vs) == |ValuesBytes(vs)| + CONFIG_ERR * OversizedCount(vs)
  {
    hide ValueBytes, Oversized;
    if vs != [] {
      StoppedBytes(vs[0]);
      CountedTooMuch(vs[1..]);
    }
  }

  lemma WordsAgree(a: nat, b: nat)
    ensures Word(a) == Word(b) <==> a % 0x1_0000 == b % 0x1_0000
  {
    WordMod(a);
    WordMod(b);
    var x, y := a % 0x1_0000, b % 0x1_0000;
    if Word(a) == Word(b) {
      WordRoundTrip(x, Word(x), 0);
      WordRoundTrip(y, Word(y), 0);
      assert Word(x)[0..2] == Word(x) && Word(y)[0..2] == Word(y);
    }
  }

  /** The error code is odd, so it takes 65536 of them to cancel out. */
  lemma CancelsOut(n: nat, k: nat)
    ensures (n + CONFIG_ERR * k) % 0x1_0000 == n % 0x1_0000 <==> k % 0x1_0000 == 0
  {
    var p, q := n / 0x1_0000, (n + CONFIG_ERR * k) / 0x1_0000;
    if (n + CONFIG_ERR * k) % 0x1_0000 == n % 0x1_0000 {
      WholeTimes(k, 28087 * (q - p) - 3 * k);
    }
    if k % 0x1_0000 == 0 {
      SameRest(n, n + CONFIG_ERR * k, 7 * (k / 0x1_0000));
    }
  }

  lemma WholeTimes(k: nat, j: int)
    requires k == 0x1_0000 * j
    ensures k % 0x1_0000 == 0
  {
  }

  lemma SameRest(a: nat, b: nat, j: nat)
    requires b == a + 0x1_0000 * j
    ensures a % 0x1_0000 == b % 0x1_0000
  {
  }

  lemma SomeEncoded(ts: seq<Tlv>)
    ensures |EncodeAll(ts)| == 0 <==> ts == []
  {
  }

  /** A TLV that is written through is the one asked for exactly when its length is right. */
  lemma ThroughExact(c: ConfigTlv)
    requires !Halts(c)
    ensures |WrittenTlv(c)| == |EncodeAll(OneTlv(c))|
    ensures WrittenTlv(c) == EncodeAll(OneTlv(c)) <==> OversizedCount(c.values) % 0x1_0000 == 0
  {
    if c.values != [] {
      hide ValuesBytes, Until, CountedAll, OversizedCount, Word;
      var vs, a := c.values, Word(c.attr.value);
      UntilBeyond(vs);
      CountedTooMuch(vs);
      CancelsOut(|ValuesBytes(vs)|, OversizedCount(vs));
      WordsAgree(CountedAll(vs), |ValuesBytes(vs)|);
      assert EncodeAll(OneTlv(c)) == Encode(OneTlv(c)[0]) + EncodeAll([]);
      assert OneTlv(c)[1..] == [];
      FieldBetween(a, Word(CountedAll(vs)), Word(|ValuesBytes(vs)|), Until(vs));
    }
  }

  lemma FieldBetween(a: Bytes, b: Bytes, c: Bytes, d: Bytes)
    requires |b| == |c|
    ensures a + b + d == a + c + d <==> b == c
  {
    if a + b + d == a + c + d {
      assert b == (a + b + d)[|a|..|a| + |b|] && c == (a + c + d)[|a|..|a| + |b|];
    }
  }

  lemma EncodeOne(t: Tlv, rest: seq<Tlv>)
    ensures EncodeAll([t] + rest) == Encode(t) + EncodeAll(rest)
  {
    assert ([t] + rest)[1..] == rest;
  }

  /** The TLV that halts: what is written of it and what it asks for, any TLVs behind. */
  lemma HaltedExact(c: ConfigTlv, rest: seq<Tlv>)
    requires Halts(c)
    ensures WrittenTlv(c) == EncodeAll(OneTlv(c) + rest) <==>
            rest == [] && (c.attr.None? || (Beyond(c.values) == [] && |Until(c.values)| % 0x1_0000 == 0))
  {
    hide ValuesBytes, Until, Beyond, CountedAll, Word, EncodeAll;
    var vs := c.values;
    SomeEncoded(rest);
    if c.attr.None? {
      assert OneTlv(c) + rest == rest;
      EmptyEncoded();
    } else {
      var t := Tlv(c.attr.value, ValuesBytes(vs));
      UntilBeyond(vs);
      EncodeOne(t, rest);
      HaltedBytes(c.attr.value, Until(vs), Beyond(vs), EncodeAll(rest));
    }
  }

  lemma EmptyEncoded()
    ensures EncodeAll([]) == []
  {
  }

  lemma HaltedBytes(attr: nat, until: Bytes, beyond: Bytes, rest: Bytes)
    ensures Word(attr) + Word(0) + until == Encode(Tlv(attr, until + beyond)) + rest <==>
            rest == [] && beyond == [] && |until| % 0x1_0000 == 0
  {
    hide Word;
    WordsAgree(0, |until|);
    if rest == [] && beyond == [] {
      assert until + beyond == until && Encode(Tlv(attr, until)) + rest == Encode(Tlv(attr, until));
      FieldBetween(Word(attr), Word(0), Word(|until|), until);
    }
  }

  lemma Halves(a: Bytes, b: Bytes, c: Bytes, d: Bytes)
    requires |a| == |c|
    ensures a + b == c + d <==> a == c && b == d
  {
    if a + b == c + d {
      assert a == (a + b)[..|a|] && c == (c + d)[..|a|] && b == (a + b)[|a|..] && d == (c + d)[|a|..];
    }
  }

  lemma {:induction false} EncodeJoin(a: seq<Tlv>, b: seq<Tlv>)
    ensures EncodeAll(a + b) == EncodeAll(a) + EncodeAll(b)
  {
    hide Encode;
    if a == [] {
      assert a + b == b;
    } else {
      EncodeJoin(a[1..], b);
      assert (a + b)[1..] == a[1..] + b;
      Regroup(Encode(a[0]), EncodeAll(a[1..]), EncodeAll(b));
    }
  }

  /** What is written is what the configuration asks for, exactly for harmless ones. */
  lemma {:induction false} WrittenExact(cs: seq<ConfigTlv>)
    ensures Written(cs) == EncodeAll(Tlvs(cs)) <==> Harmless(cs)
  {
    hide WrittenTlv, OneTlv, Halts, EncodeAll, Until, Beyond, OversizedCount;
    if cs == [] {
      EmptyEncoded();
    } else {
      var c, rest := cs[0], cs[1..];
      if Halts(c) {
        HaltedExact(c, Tlvs(rest));
        assert WrittenTlv(c) + [] == WrittenTlv(c);
      } else {
        WrittenExact(rest);
        ThroughExact(c);
        EncodeJoin(OneTlv(c), Tlvs(rest));
        Halves(WrittenTlv(c), Written(rest), EncodeAll(OneTlv(c)), EncodeAll(Tlvs(rest)));
      }
    }
  }

  lemma {:induction false} GoodValuesRun(vs: seq<Value>)
    requires forall v | v in vs :: !Stops(v) && !Oversized(v)
    ensures Runs(vs) && OversizedCount(vs) == 0
  {
    if vs != [] {
      GoodValuesRun(vs[1..]);
    }
  }

  lemma GoodRunsThrough(c: ConfigTlv)
    requires GoodTlv(c)
    ensures !Halts(c) && OversizedCount(c.values) == 0
  {
    hide Stops, Oversized;
    if c.values != [] {
      GoodValuesRun(c.values);
    }
  }

  lemma {:induction false} GoodIsHarmless(cs: seq<ConfigTlv>)
    requires GoodConfig(cs)
    ensures Harmless(cs)
  {
    hide GoodTlv, Halts, OversizedCount, Tlvs, Beyond, Until;
    if cs != [] {
      assert cs[0] in cs && forall c | c in cs[1..] :: c in cs;
      GoodRunsThrough(cs[0]);
      GoodIsHarmless(cs[1..]);
    }
  }

  // ---- the file ----

  /** Three fields, and a body that need not be TLVs. */
  function RawHead(version: nat, body: Bytes, payloadLen: nat): (r: Bytes)
    ensures |r| == MIN_LEN + |body|
  {
    DWord(version) + DWord(MIN_LEN + |body|) + DWord(MIN_LEN + |body| + payloadLen) + body
  }

  /** The TLVs as written, and the signature's TLV. */
  function Body(cs: seq<ConfigTlv>, attr: nat, signature: Bytes): Bytes {
    Written(cs) + Encode(Tlv(attr, signature))
  }

  /** The file is the package of the TLVs asked for, exactly for harmless configurations. */
  lemma PackedExact(version: nat, cs: seq<ConfigTlv>, attr: nat, signature: Bytes, payload: Bytes)
    ensures (RawHead(version, Body(cs, attr, signature), |payload|) + payload
             == HeadBytes(version, Signed(Tlvs(cs), attr, signature), |payload|) + payload) <==> Harmless(cs)
  {
    hide Written, EncodeAll, Tlvs, Harmless, DWord, Encode;
    var w, e, s := Written(cs), EncodeAll(Tlvs(cs)), Encode(Tlv(attr, signature));
    WrittenExact(cs);
    EncodeAppend(Tlvs(cs), Tlv(attr, signature));
    var raw, head := RawHead(version, w + s, |payload|),
                    HeadBytes(version, Signed(Tlvs(cs), attr, signature), |payload|);
    if raw + payload == head + payload {
      assert |w| == |e|;
      assert w == (raw + payload)[MIN_LEN..MIN_LEN + |w|] && e == (head + payload)[MIN_LEN..MIN_LEN + |w|];
    }
  }

  /** A value of unknown type: the TLV's length stays 0, the byte already written is read
      as the next TLV, and the device rejects the head, whatever the signature. */
  lemma UnknownTypeIsRejected(signature: Bytes, payloadLen: nat)
    requires |signature| == 32
    ensures var cs := [ConfigTlv(Some(7), [Text([1]), Unknown])];
            && Written(cs) == [0, 7, 0, 0, 1]
            && !Walk(RawHead(0, Body(cs, 1, signature), payloadLen), MIN_LEN, 1, None, 0).ok
  {
    hide Walk, DWord;
    var vs := [Text([1]), Unknown];
    var cs := [ConfigTlv(Some(7), vs)];
    assert vs[1..] == [Unknown] && !Runs([Unknown]);
    assert Until(vs) == [1] + Until([Unknown]);
    assert Written(cs) == [0, 7, 0, 0, 1];
    var h := RawHead(0, Body(cs, 1, signature), payloadLen);
    assert Encode(Tlv(1, signature)) == [0, 1, 0, 32] + signature;
    assert h[MIN_LEN..] == [0, 7, 0, 0, 1] + ([0, 1, 0, 32] + signature);
    assert forall i | 0 <= i < 9 :: h[MIN_LEN + i] == h[MIN_LEN..][i];
    PassTlv(h, MIN_LEN, 1, 7, 0);
    EndWalk(h, MIN_LEN + 4, 1);
  }

  /** An integer without a length: the TLV claims seven bytes it does not have, and the
      device reads the beginning of the signature's TLV as its value. */
  lemma MissingLengthIsMisread(signature: Bytes, payloadLen: nat)
    requires |signature| == 32
    ensures var cs := [ConfigTlv(Some(7), [Integer(5, None)])];
            && Written(cs) == [0, 7, 0, 7]
            && var h := RawHead(0, Body(cs, 1, signature), payloadLen);
               Walk(h, MIN_LEN, 1, None, 0) == Walk(h, MIN_LEN + 11, 1, None, 0)
  {
    hide Walk, DWord;
    var vs := [Integer(5, None)];
    var cs := [ConfigTlv(Some(7), vs)];
    assert vs[1..] == [];
    assert CountedAll(vs) == 7 + CountedAll([]);
    assert Written(cs) == [0, 7, 0, 7];
    var h := RawHead(0, Body(cs, 1, signature), payloadLen);
    assert h[MIN_LEN..] == [0, 7, 0, 7] + Encode(Tlv(1, signature));
    assert forall i | 0 <= i < 4 :: h[MIN_LEN + i] == h[MIN_LEN..][i];
    PassTlv(h, MIN_LEN, 1, 7, 7);
  }

  /** A TLV of no interest is passed over. */
  lemma PassTlv(h: Bytes, pos: nat, attr: nat, a: nat, len: nat)
    requires pos + 4 + len <= |h| && GetWord(h, pos) == a && GetWord(h, pos + 2) == len
    requires a != attr && a != BIN_TYPE
    ensures Walk(h, pos, attr, None, 0) == Walk(h, pos + 4 + len, attr, None, 0)
  {
    hide GetWord, GetDWord;
  }

  /** A TLV longer than the head ends the walk. */
  lemma EndWalk(h: Bytes, pos: nat, attr: nat)
    requires pos + 4 <= |h| < pos + 4 + GetWord(h, pos + 2)
    ensures !Walk(h, pos, attr, None, 0).ok
  {
    hide GetWord, GetDWord;
  }

  /** Shifts bytes out of the mask's end, most significant first. */
  method SerializeByte(value: nat, byteNumber: nat) returns (buffer: Bytes)
    requires byteNumber <= 4
    ensures buffer == DWord(value)[4 - byteNumber..]
  {
    buffer := [];
    var divisors := [1, 0x100, 0x1_0000, 0x100_0000];
    for i := 0 to byteNumber
      invariant buffer == DWord(value)[4 - byteNumber..4 - byteNumber + i]
    {
      var shift := divisors[byteNumber - 1 - i];
      buffer := buffer + [value / shift % 0x100];
    }
  }

  class FileWriter {
    var content: Bytes
    var pos: nat

    constructor ()
      ensures content == [] && pos == 0
    {
      content := [];
      pos := 0;
    }

    /** Writing overwrites what is there and extends the file. */
    method Write(data: Bytes)
      requires pos <= |content|
      modifies this
      ensures pos == old(pos) + |data|
      ensures old(pos) == |old(content)| ==> content == old(content) + data
      ensures old(pos) + |data| <= |old(content)| ==> content == Overlay(old(content), old(pos), data)
      ensures pos <= |content|
    {
      content := content[..pos] + data + (if pos + |data| <= |content| then content[pos + |data|..] else []);
      pos := pos + |data|;
    }

    method WriteInt(value: nat, byteNum: nat)
      requires pos == |content| && byteNum <= 4
      modifies this
      ensures content == old(content) + DWord(value)[4 - byteNum..] && pos == |content|
    {
      var buffer := SerializeByte(value, byteNum);
      Write(buffer);
    }

    method WriteIntAt(value: nat, byteNum: nat, offset: nat)
      requires byteNum <= 4 && offset + byteNum <= |content|
      modifies this
      ensures content == Overlay(old(content), offset, DWord(value)[4 - byteNum..])
      ensures pos == offset + byteNum
    {
      pos := offset;
      var buffer := SerializeByte(value, byteNum);
      Write(buffer);
    }

    method Read(size: nat) returns (data: Bytes)
      requires pos + size <= |content|
      modifies this`pos
      ensures data == content[old(pos)..old(pos) + size] && pos == old(pos) + size
    {
      data := content[pos..pos + size];
      pos := pos + size;
    }
  }

  method WriteValue(writer: FileWriter, v: Value) returns (ok: bool, len: nat)
    requires writer.pos == |writer.content|
    modifies writer
    ensures writer.pos == |writer.content| && writer.content == old(writer.content) + ValueBytes(v)
    ensures ok <==> !Stops(v)
    ensures ok ==> len == Counted(v)
  {
    match v {
      case Text(data) =>
        writer.Write(data);
        return true, |data|;
      case Integer(_, None) =>
        return true, CONFIG_ERR;
      case Integer(value, Some(n)) =>
        if n > 4 {
          return true, CONFIG_ERR;
        }
        if n < 0 {
          return false, 0;
        }
        writer.WriteInt(value, n);
        return true, n;
      case Unknown =>
        return false, 0;
    }
  }

  /** Writes the values of one TLV up to the first that stops. */
  method WriteValues(writer: FileWriter, values: seq<Value>) returns (ok: bool, len: nat)
    requires writer.pos == |writer.content|
    modifies writer
    ensures writer.pos == |writer.content| && writer.content == old(writer.content) + Until(values)
    ensures ok <==> Runs(values)
    ensures ok ==> len == CountedAll(values)
  {
    hide ValueBytes, Stops, Counted;
    len := 0;
    ghost var start := writer.content;
    for i := 0 to |values|
      invariant writer.pos == |writer.content|
      invariant start + Until(values) == writer.content + Until(values[i..])
      invariant CountedAll(values) == len + CountedAll(values[i..])
      invariant Runs(values) <==> Runs(values[i..])
    {
      ghost var rest, before := values[i..], writer.content;
      assert rest[1..] == values[i + 1..];
      var n;
      ok, n := WriteValue(writer, values[i]);
      if !ok {
        StoppedBytes(values[i]);
        return;
      }
      Regroup(before, ValueBytes(values[i]), Until(values[i + 1..]));
      len := len + n;
    }
    return true, len;
  }

  /** Attribute, length left open, values, length patched in when no value stopped. */
  method WriteTlv(writer: FileWriter, attr: nat, values: seq<Value>) returns (ok: bool)
    requires writer.pos == |writer.content| && values != []
    modifies writer
    ensures ok <==> Runs(values)
    ensures writer.pos == |writer.content|
    ensures writer.content == old(writer.content) + WrittenTlv(ConfigTlv(Some(attr), values))
  {
    hide Until, CountedAll, DWord, Word, Runs;
    ghost var start := writer.content;
    WordField(attr);
    WordField(0);
    writer.WriteInt(attr, 2);
    var lenPos := writer.pos;
    writer.WriteInt(0, 2);
    var len;
    ok, len := WriteValues(writer, values);
    ghost var v := Until(values);
    ThreeBehind(start, Word(attr), Word(0), v);
    if !ok {
      return;
    }
    var pos := writer.pos;
    WordField(len);
    writer.WriteIntAt(len, 2, lenPos);
    PatchWord(start + Word(attr), Word(0), v, Word(len));
    ThreeBehind(start, Word(attr), Word(len), v);
    writer.pos := pos;
  }

  lemma ThreeBehind(a: Bytes, b: Bytes, c: Bytes, d: Bytes)
    ensures a + b + c + d == a + (b + c + d)
  {
  }

  lemma WordField(v: nat)
    ensures DWord(v)[2..] == Word(v)
  {
  }

  lemma PatchWord(a: Bytes, b: Bytes, c: Bytes, w: Bytes)
    requires |w| == |b|
    ensures Overlay(a + b + c, |a|, w) == a + w + c
  {
    assert (a + b + c)[..|a|] == a && (a + b + c)[|a| + |b|..] == c;
  }

  /** Writes the configured TLVs up to the one that halts; the caller ignores the result. */
  method WriteTlvs(writer: FileWriter, cs: seq<ConfigTlv>) returns (ok: bool)
    requires writer.pos == |writer.content|
    modifies writer
    ensures writer.pos == |writer.content| && writer.content == old(writer.content) + Written(cs)
    ensures ok <==> forall c | c in cs :: !Halts(c)
  {
    hide WrittenTlv, Runs;
    ghost var start := writer.content;
    for i := 0 to |cs|
      invariant writer.pos == |writer.content|
      invariant start + Written(cs) == writer.content + Written(cs[i..])
      invariant forall c | c in cs[..i] :: !Halts(c)
    {
      var c := cs[i];
      ghost var before := writer.content;
      assert cs[i..][1..] == cs[i + 1..] && cs[..i + 1] == cs[..i] + [c] && c in cs;
      if c.values == [] {
        SkippedTlv(c);
        continue;
      }
      if c.attr.None? {
        SkippedTlv(c);
        return false;
      }
      ok := WriteTlv(writer, c.attr.value, c.values);
      Regroup(before, WrittenTlv(c), if ok then Written(cs[i + 1..]) else []);
      if !ok {
        return false;
      }
    }
    assert cs[..|cs|] == cs;
    return true;
  }

  lemma SkippedTlv(c: ConfigTlv)
    ensures c.values == [] || c.attr.None? ==> WrittenTlv(c) == []
  {
  }

  /** The checksum algorithm: its attribute, its size, and the signature it gives. */
  datatype Algorithm = Algorithm(attr: nat, size: nat, sign: Bytes -> Bytes)
  {
    ghost predicate Valid() {
      attr < 0x1_0000 && 0 < size < 0x1_0000 && forall x :: |sign(x)| == size
    }
  }

  /** Fields still open, TLVs, and the signature's TLV with blanks for its value. */
  method WriteOpenHead(writer: FileWriter, version: nat, cs: seq<ConfigTlv>, alg: Algorithm)
    returns (checksumOffset: nat)
    requires writer.content == [] && writer.pos == 0 && alg.Valid()
    modifies writer
    ensures writer.content == DWord(version) + DWord(0) + DWord(0) + Body(cs, alg.attr, Zeros(alg.size))
    ensures writer.pos == |writer.content| && checksumOffset + alg.size == |writer.content|
  {
    hide DWord, Word, Written, Halts;
    assert DWord(version)[0..] == DWord(version) && DWord(0)[0..] == DWord(0);
    writer.WriteInt(version, 4);
    writer.WriteInt(0, 4);
    writer.WriteInt(0, 4);
    ghost var start := writer.content;
    var ok := WriteTlvs(writer, cs);
    WordField(alg.attr);
    WordField(alg.size);
    writer.WriteInt(alg.attr, 2);
    writer.WriteInt(alg.size, 2);
    checksumOffset := writer.pos;
    writer.Write(Zeros(alg.size));
    assert writer.content == start + (Written(cs) + (Word(alg.attr) + Word(alg.size) + Zeros(alg.size)));
  }

  /** Head, lengths patched, signature blank. */
  method WriteConfig(writer: FileWriter, version: nat, cs: seq<ConfigTlv>, alg: Algorithm, payloadLen: nat)
    returns (checksumOffset: nat, headLen: nat)
    requires writer.content == [] && writer.pos == 0 && alg.Valid()
    modifies writer
    ensures writer.content == RawHead(version, Body(cs, alg.attr, Zeros(alg.size)), payloadLen)
    ensures headLen == writer.pos == |writer.content| && checksumOffset + alg.size == headLen
  {
    hide DWord, Body;
    checksumOffset := WriteOpenHead(writer, version, cs, alg);
    headLen := writer.pos;
    ghost var body := Body(cs, alg.attr, Zeros(alg.size));
    assert DWord(headLen)[0..] == DWord(headLen) && DWord(headLen + payloadLen)[0..] == DWord(headLen + payloadLen);
    Regroup(DWord(version) + DWord(0), DWord(0), body);
    writer.WriteIntAt(headLen, 4, 4);
    PatchWord(DWord(version), DWord(0), DWord(0) + body, DWord(headLen));
    Regroup(DWord(version) + DWord(headLen), DWord(0), body);
    writer.WriteIntAt(headLen + payloadLen, 4, 8);
    PatchWord(DWord(version) + DWord(headLen), DWord(0), body, DWord(headLen + payloadLen));
    writer.pos := headLen;
  }

  /** Reads the head back in pieces and hashes it; the position ends behind it. */
  method HashHead(writer: FileWriter, headLen: nat) returns (fed: Bytes)
    requires headLen == |writer.content|
    modifies writer`pos
    ensures fed == writer.content && writer.pos == headLen
  {
    fed := [];
    var readLen := headLen;
    writer.pos := 0;
    while readLen > 0
      invariant 0 <= readLen <= headLen && writer.pos == headLen - readLen
      invariant fed == writer.content[..writer.pos]
    {
      var n := if readLen <= PIECE then readLen else PIECE;
      var buffer := writer.Read(n);
      fed := fed + buffer;
      readLen := readLen - n;
    }
  }

  /** make_software: for every configuration the file is the fields, the TLVs as written,
      the signature of exactly the bytes that were hashed, and the payload; where the
      configuration is harmless it is the package of the TLVs asked for. */
  method MakeSoftware(version: nat, cs: seq<ConfigTlv>, alg: Algorithm, payload: Bytes)
    returns (file: Bytes, fed: Bytes)
    requires alg.Valid()
    ensures fed == RawHead(version, Body(cs, alg.attr, Zeros(alg.size)), |payload|) + payload
    ensures file == RawHead(version, Body(cs, alg.attr, alg.sign(fed)), |payload|) + payload
    ensures file == HeadBytes(version, Signed(Tlvs(cs), alg.attr, alg.sign(fed)), |payload|) + payload <==> Harmless(cs)
  {
    hide Body, Tlvs, HeadBytes, RawHead, Signed, Harmless;
    var writer := new FileWriter();
    var checksumOffset, headLen := WriteConfig(writer, version, cs, alg, |payload|);
    ghost var head := writer.content;
    fed := HashHead(writer, headLen);
    var i := 0;
    while i < |payload|
      invariant 0 <= i <= |payload|
      invariant fed == head + payload[..i] == writer.content && writer.pos == |writer.content|
    {
      var n := if |payload| - i <= PIECE then |payload| - i else PIECE;
      var buffer := payload[i..i + n];
      assert payload[..i] + buffer == payload[..i + n];
      fed := fed + buffer;
      writer.Write(buffer);
      i := i + n;
    }
    assert payload[..i] == payload;
    var signature := alg.sign(fed);
    writer.pos := checksumOffset;
    writer.Write(signature);
    file := writer.content;
    SignatureFits(version, cs, alg.attr, alg.size, signature, payload);
    PackedExact(version, cs, alg.attr, signature, payload);
  }

  lemma SignatureFits(version: nat, cs: seq<ConfigTlv>, attr: nat, size: nat, signature: Bytes, payload: Bytes)
    requires |signature| == size
    ensures var blank := RawHead(version, Body(cs, attr, Zeros(size)), |payload|);
            && |blank| >= size
            && Overlay(blank + payload, |blank| - size, signature)
            == RawHead(version, Body(cs, attr, signature), |payload|) + payload
  {
    hide Written, DWord, Word;
    var len := MIN_LEN + |Body(cs, attr, signature)|;
    var front := DWord(version) + DWord(len) + DWord(len + |payload|) + Written(cs) + Word(attr) + Word(size);
    var blank := RawHead(version, Body(cs, attr, Zeros(size)), |payload|);
    assert blank == front + Zeros(size);
    PatchWord(front, Zeros(size), payload, signature);
    assert RawHead(version, Body(cs, attr, signature), |payload|) == front + signature;
  }
}
