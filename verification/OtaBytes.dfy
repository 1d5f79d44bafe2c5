/** Bytes, big-endian fields and overwriting a stretch of memory. */
module OtaBytes {

  type Byte = b: int | 0 <= b < 0x100

  type Bytes = seq<Byte>

  /** memory with data written at offset at. */
  function Overlay(memory: Bytes, at: nat, data: Bytes): (r: Bytes)
    requires at + |data| <= |memory|
    ensures |r| == |memory|
    ensures r[at..at + |data|] == data
    ensures forall i | 0 <= i < at || at + |data| <= i < |memory| :: r[i] == memory[i]
  {
    memory[..at] + data + memory[at + |data|..]
  }

  lemma OverlayUnique(memory: Bytes, at: nat, data: Bytes, r: Bytes)
    requires at + |data| <= |memory| == |r|
    requires r[at..at + |data|] == data
    requires forall i | 0 <= i < at || at + |data| <= i < |memory| :: r[i] == memory[i]
    ensures r == Overlay(memory, at, data)
  {
    forall i | 0 <= i < |r|
      ensures r[i] == Overlay(memory, at, data)[i]
    {
      if at <= i < at + |data| {
        assert r[i] == r[at..at + |data|][i - at];
        assert Overlay(memory, at, data)[i] == Overlay(memory, at, data)[at..at + |data|][i - at];
      }
    }
  }

  /** Writing two adjacent stretches is writing both at once. */
  lemma OverlayAdjacent(memory: Bytes, at: nat, a: Bytes, b: Bytes)
    requires at + |a| + |b| <= |memory|
    ensures Overlay(Overlay(memory, at, a), at + |a|, b) == Overlay(memory, at, a + b)
  {
  }

  /** Writing what is there already changes nothing. */
  lemma OverlaySame(memory: Bytes, at: nat, data: Bytes)
    requires at + |data| <= |memory| && memory[at..at + |data|] == data
    ensures Overlay(memory, at, data) == memory
  {
    assert memory == memory[..at] + memory[at..at + |data|] + memory[at + |data|..];
  }

  function Zeros(n: nat): (r: Bytes)
    ensures |r| == n && forall i | 0 <= i < n :: r[i] == 0
  {
    seq(n, _ => 0)
  }

  // ---- big-endian fields ----

  function Word(v: nat): (r: Bytes)
    ensures |r| == 2
  {
    [v / 0x100 % 0x100, v % 0x100]
  }

  function DWord(v: nat): (r: Bytes)
    ensures |r| == 4
  {
    [v / 0x100_0000 % 0x100, v / 0x1_0000 % 0x100, v / 0x100 % 0x100, v % 0x100]
  }

  function GetWord(buf: Bytes, at: nat): (v: nat)
    requires at + 2 <= |buf|
    ensures v < 0x1_0000
  {
    buf[at] as int * 0x100 + buf[at + 1]
  }

  function GetDWord(buf: Bytes, at: nat): (v: nat)
    requires at + 4 <= |buf|
    ensures v < 0x1_0000_0000
  {
    buf[at] as int * 0x100_0000 + buf[at + 1] as int * 0x1_0000 + buf[at + 2] as int * 0x100 + buf[at + 3]
  }

  /** The value of bytes, the most significant first. */
  function BigEndian(b: Bytes): nat {
    if b == [] then 0 else BigEndian(b[..|b| - 1]) * 0x100 + b[|b| - 1]
  }

  lemma BigEndianNext(b: Bytes, n: nat)
    requires n < |b|
    ensures BigEndian(b[..n + 1]) == BigEndian(b[..n]) * 0x100 + b[n]
    ensures BigEndian(b[..0]) == 0
  {
    assert b[..n + 1][..n] == b[..n];
  }

  lemma FieldsAreBigEndian(buf: Bytes, at: nat)
    requires at + 2 <= |buf|
    ensures GetWord(buf, at) == BigEndian(buf[at..at + 2])
    ensures at + 4 <= |buf| ==> GetDWord(buf, at) == BigEndian(buf[at..at + 4])
  {
    hide BigEndian;
    var w := buf[at..at + 2];
    BigEndianNext(w, 0);
    BigEndianNext(w, 1);
    assert w[..2] == w;
    if at + 4 <= |buf| {
      var d := buf[at..at + 4];
      BigEndianNext(d, 0);
      BigEndianNext(d, 1);
      BigEndianNext(d, 2);
      BigEndianNext(d, 3);
      assert d[..4] == d;
    }
  }

  lemma WordRoundTrip(v: nat, buf: Bytes, at: nat)
    requires v < 0x1_0000 && at + 2 <= |buf| && buf[at..at + 2] == Word(v)
    ensures GetWord(buf, at) == v
  {
    assert buf[at] == buf[at..at + 2][0] && buf[at + 1] == buf[at..at + 2][1];
  }

  lemma DWordRoundTrip(v: nat, buf: Bytes, at: nat)
    requires v < 0x1_0000_0000 && at + 4 <= |buf| && buf[at..at + 4] == DWord(v)
    ensures GetDWord(buf, at) == v
  {
    var f := buf[at..at + 4];
    assert buf[at] == f[0] && buf[at + 1] == f[1] && buf[at + 2] == f[2] && buf[at + 3] == f[3];
    var a, b, c := v / 0x100, v / 0x1_0000, v / 0x100_0000;
    assert b == a / 0x100 && c == b / 0x100 && c < 0x100;
  }
}
