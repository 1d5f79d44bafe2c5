/** \u literals against the encodings they stand for: UTF-16 (section 2 of RFC 2781)
    on the way in and UTF-8 (section 3 of RFC 3629) on the way out. */
module JsonUnicode {
  import opened Basics
  import opened JsonText
  import opened JsonRender

  predicate ScalarValue(cp: nat) {
    cp <= 0x10FFFF && !HighSurrogate(cp) && !LowSurrogate(cp)
  }

  // ---- UTF-8, decoding direction ----

  function Tail(c: char): Option<nat> {
    if 0x80 <= c as int <= 0xBF then Some(c as nat - 0x80) else None
  }

  /** Decoding by the lead byte, overlong forms rejected. */
  function Utf8Decode(s: string): Option<nat> {
    if s == "" then None
    else
      var lead := s[0] as nat;
      if lead < 0x80 then (if |s| == 1 then Some(lead) else None)
      else if 0xC0 <= lead < 0xE0 && |s| == 2 then
        match Tail(s[1])
        case Some(a) => AtLeast(0x80, (lead - 0xC0) * 0x40 + a)
        case None => None
      else if 0xE0 <= lead < 0xF0 && |s| == 3 then
        match (Tail(s[1]), Tail(s[2]))
        case (Some(a), Some(b)) => AtLeast(0x800, (lead - 0xE0) * 0x1000 + a * 0x40 + b)
        case _ => None
      else if 0xF0 <= lead < 0xF8 && |s| == 4 then
        match (Tail(s[1]), Tail(s[2]), Tail(s[3]))
        case (Some(a), Some(b), Some(c)) =>
          AtLeast(0x10000, (lead - 0xF0) * 0x40000 + a * 0x1000 + b * 0x40 + c)
        case _ => None
      else None
  }

  function AtLeast(least: nat, cp: nat): Option<nat> {
    if cp < least then None else Some(cp)
  }

  /** Splitting off one more group of six bits. */
  lemma SixBits(x: nat)
    ensures x / 0x1000 == x / 0x40 / 0x40 && x / 0x40000 == x / 0x1000 / 0x40
    ensures x == x / 0x40 * 0x40 + x % 0x40
  {
  }

  lemma Utf8RoundTrip(cp: nat)
    requires cp <= 0x10FFFF
    ensures Utf8Decode(Utf8(cp)) == Some(cp)
  {
    var s := Utf8(cp);
    SixBits(cp);
    SixBits(cp / 0x40);
    SixBits(cp / 0x1000);
    if cp >= 0x10000 {
      FourBytes(s, cp);
    } else if cp >= 0x800 {
      assert Tail(s[1]) == Some(cp / 0x40 % 0x40) && Tail(s[2]) == Some(cp % 0x40);
    }
  }

  lemma FourBytes(s: string, cp: nat)
    requires 0x10000 <= cp <= 0x10FFFF && |s| == 4
    requires s[0] as int == 0xF0 + cp / 0x40000 && Tail(s[1]) == Some(cp / 0x1000 % 0x40)
    requires Tail(s[2]) == Some(cp / 0x40 % 0x40) && Tail(s[3]) == Some(cp % 0x40)
    ensures Utf8Decode(s) == Some(cp)
  {
    SixBits(cp);
    SixBits(cp / 0x40);
    SixBits(cp / 0x1000);
  }

  // ---- UTF-16, encoding direction ----

  /** Section 2.1 of RFC 2781: one code unit, or a surrogate pair. */
  function CodeUnits(cp: nat): (units: seq<nat>)
    requires ScalarValue(cp)
    ensures forall i | 0 <= i < |units| :: units[i] < 0x10000
  {
    if cp < 0x10000 then [cp]
    else
      var u := cp - 0x10000;
      [0xD800 + u / 0x400, 0xDC00 + u % 0x400]
  }

  function Hex(w: nat): (h: string)
    requires w < 0x10000
    ensures |h| == 4
  {
    [LowerHex(w / 0x1000), LowerHex(w / 0x100 % 16), LowerHex(w / 16 % 16), LowerHex(w % 16)]
  }

  lemma HexRoundTrip(w: nat)
    requires w < 0x10000
    ensures Hex4(Hex(w)) == w
  {
    hide HexDigit, LowerHex;
    DigitRoundTrip(w / 0x1000);
    DigitRoundTrip(w / 0x100 % 16);
    DigitRoundTrip(w / 16 % 16);
    DigitRoundTrip(w % 16);
    assert w / 0x1000 == w / 0x100 / 16 && w / 0x100 == w / 16 / 16;
  }

  /** The sixteen digits by their ASCII codes, in either case, and no other character; lower case
      is printed. */
  lemma HexValues(d: nat, c: char)
    ensures d < 10 ==> HexDigit((0x30 + d) as char) == Some(d)
    ensures 10 <= d < 16 ==> HexDigit((0x41 + d - 10) as char) == Some(d) == HexDigit((0x61 + d - 10) as char)
    ensures HexDigit(c).Some? ==>
              var x := c as int; 0x30 <= x <= 0x39 || 0x41 <= x <= 0x46 || 0x61 <= x <= 0x66
    ensures d < 16 ==> LowerHex(d) == "0123456789abcdef"[d]
  {
  }

  /** The byte order mark is the encoding of its code point. */
  lemma BomIsUtf8()
    ensures BOM == Utf8(0xFEFF) && Utf8Decode(BOM) == Some(0xFEFF)
  {
  }

  lemma DigitRoundTrip(d: nat)
    requires d < 16
    ensures HexDigit(LowerHex(d)) == Some(d)
  {
  }

  predicate AllHex(h: string) {
    forall i | 0 <= i < |h| :: HexDigit(h[i]).Some?
  }

  /** Four hexadecimal digits, in whatever case, with the value w. */
  predicate DigitsOf(h: string, w: nat) {
    |h| == 4 && AllHex(h) && Hex4(h) == w
  }

  /** s is one literal for each unit. */
  predicate Spells(s: string, units: seq<nat>) {
    if units == [] then s == ""
    else |s| >= 6 && s[0] == BACKSLASH && s[1] == 'u' && DigitsOf(s[2..6], units[0]) && Spells(s[6..], units[1..])
  }

  lemma {:induction false} SpellsLength(s: string, units: seq<nat>)
    requires Spells(s, units)
    ensures |s| == 6 * |units|
  {
    if units != [] {
      SpellsLength(s[6..], units[1..]);
    }
  }

  lemma SpellsOne(s: string, w: nat)
    ensures Spells(s, [w]) <==> |s| == 6 && s[0] == BACKSLASH && s[1] == 'u' && DigitsOf(s[2..6], w)
  {
    hide DigitsOf;
    if |s| >= 6 {
      assert Spells(s[6..], []) <==> |s| == 6;
    }
  }

  lemma SpellsTwo(s: string, w1: nat, w2: nat)
    ensures Spells(s, [w1, w2]) <==>
            && |s| == 12 && s[0] == BACKSLASH && s[1] == 'u' && DigitsOf(s[2..6], w1)
            && s[6] == BACKSLASH && s[7] == 'u' && DigitsOf(s[8..12], w2)
  {
    hide DigitsOf;
    if |s| >= 6 {
      assert [w1, w2][1..] == [w2];
      SpellsOne(s[6..], w2);
      if |s| == 12 {
        assert s[6..][2..6] == s[8..12];
      }
    }
  }

  lemma JoinedPair(w1: nat, w2: nat, cp: nat)
    requires w1 < 0x10000 && w2 < 0x10000
    ensures HighSurrogate(w1) && LowSurrogate(w2) && cp == 0x10000 + (w1 % 0x400) * 0x400 + w2 % 0x400
            <==> ScalarValue(cp) && CodeUnits(cp) == [w1, w2]
  {
    if HighSurrogate(w1) && LowSurrogate(w2) {
      assert w1 % 0x400 == w1 - 0xD800 && w2 % 0x400 == w2 - 0xDC00;
    }
    if ScalarValue(cp) && CodeUnits(cp) == [w1, w2] {
      assert cp >= 0x10000;
    }
  }

  lemma SingleUnit(w: nat, cp: nat)
    ensures !HighSurrogate(w) && !LowSurrogate(w) && w < 0x10000 && cp == w
            <==> ScalarValue(cp) && CodeUnits(cp) == [w]
  {
  }

  lemma ScalarUnits(cp: nat)
    requires ScalarValue(cp)
    ensures var units := CodeUnits(cp); units == [units[0]] || units == [units[0], units[1]]
  {
  }

  /** A literal whose first four characters are not all hexadecimal digits. */
  predicate Malformed(t: string, n: nat)
    requires n < |t|
  {
    n >= 6 && !AllHex(t[2..6])
  }

  lemma BadDigits(h: string)
    requires |h| == 4 && !AllHex(h)
    ensures Hex4(h) == 0
  {
  }

  /** What a literal means (section 2.2 of RFC 2781): it is read as a code point of some
      length exactly when that much of the string spells the code point's units, or as code 0
      when it is malformed.  Lone, swapped and cut surrogates spell none and are rejected. */
  lemma LiteralExact(t: string, n: nat, cp: nat, length: nat)
    requires n < |t| && |t| >= 2 && t[0] == BACKSLASH && t[1] == 'u'
    ensures ReadLiteral(t, n) == Literal(cp, length) <==>
            || (ScalarValue(cp) && length <= n && Spells(t[..length], CodeUnits(cp)))
            || (Malformed(t, n) && cp == 0 && length == 6)
  {
    hide Hex4, HexDigit, Spells, CodeUnits, ScalarValue;
    if ScalarValue(cp) && length <= n && Spells(t[..length], CodeUnits(cp)) {
      SpelledReads(t, n, cp, length);
    }
    if Malformed(t, n) {
      BadDigits(t[2..6]);
    }
    if ReadLiteral(t, n) == Literal(cp, length) && !Malformed(t, n) {
      ReadIsSpelled(t, n, cp, length);
    }
  }

  lemma SpelledReads(t: string, n: nat, cp: nat, length: nat)
    requires length <= n < |t| && ScalarValue(cp) && Spells(t[..length], CodeUnits(cp))
    ensures ReadLiteral(t, n) == Literal(cp, length)
  {
    hide Hex4, AllHex, Spells, ScalarValue, CodeUnits;
    var s, units := t[..length], CodeUnits(cp);
    ScalarUnits(cp);
    SpellsLength(s, units);
    if |units| == 1 {
      SpellsOne(s, units[0]);
      SingleUnit(units[0], cp);
      assert s[2..6] == t[2..6];
    } else {
      SpellsTwo(s, units[0], units[1]);
      JoinedPair(units[0], units[1], cp);
      assert s[2..6] == t[2..6] && s[8..12] == t[8..12];
      assert s[6] == t[6] && s[7] == t[7];
    }
  }

  lemma ReadIsSpelled(t: string, n: nat, cp: nat, length: nat)
    requires n < |t| && |t| >= 2 && t[0] == BACKSLASH && t[1] == 'u' && ReadLiteral(t, n) == Literal(cp, length)
    requires !Malformed(t, n)
    ensures length <= n && ScalarValue(cp) && Spells(t[..length], CodeUnits(cp))
  {
    hide Hex4, AllHex, Spells, ScalarValue, CodeUnits;
    var s, w := t[..length], Hex4(t[2..6]);
    assert s[2..6] == t[2..6];
    if length == 6 {
      SingleUnit(w, cp);
      SpellsOne(s, w);
    } else {
      var last := t[8..12];
      assert s[8..12] == last;
      if !AllHex(last) {
        BadDigits(last);
        assert false;
      }
      JoinedPair(w, Hex4(last), cp);
      SpellsTwo(s, w, Hex4(last));
    }
  }

  // ---- whole strings ----

  function AllUnits(cps: seq<nat>): seq<nat>
    requires forall cp | cp in cps :: ScalarValue(cp)
  {
    if cps == [] then [] else CodeUnits(cps[0]) + AllUnits(cps[1..])
  }

  function AllUtf8(cps: seq<nat>): string
    requires forall cp | cp in cps :: ScalarValue(cp)
  {
    if cps == [] then ""
    else
      assert ScalarValue(cps[0]);
      Utf8(cps[0]) + AllUtf8(cps[1..])
  }

  lemma {:induction false} SpellsSplit(s: string, a: seq<nat>, b: seq<nat>)
    requires Spells(s, a + b)
    ensures |s| >= 6 * |a| && Spells(s[..6 * |a|], a) && Spells(s[6 * |a|..], b)
  {
    hide Hex4;
    if a == [] {
      assert a + b == b && s[0..] == s;
    } else {
      assert (a + b)[1..] == a[1..] + b;
      SpellsSplit(s[6..], a[1..], b);
      var k := 6 * |a|;
      assert s[..k][2..6] == s[2..6] && s[..k][6..] == s[6..][..k - 6] && s[6..][k - 6..] == s[k..];
    }
  }

  /** Any string of scalar values, spelled as \u literals, is read as its UTF-8 form. */
  lemma {:induction false} EscapedText(cps: seq<nat>, s: string, rest: string)
    requires forall cp | cp in cps :: ScalarValue(cp)
    requires Spells(s, AllUnits(cps)) && rest != ""
    ensures Unescape(s + rest, |s|) == Some(AllUtf8(cps))
  {
    hide ReadLiteral, Utf8, Utf8Decode, ScalarValue, CodeUnits, Spells;
    if cps == [] {
      SpellsLength(s, []);
    } else {
      var cp, others := cps[0], cps[1..];
      var units, t := CodeUnits(cp), s + rest;
      var k := 6 * |units|;
      ScalarUnits(cp);
      SpellsSplit(s, units, AllUnits(others));
      LeadOf(s, units + AllUnits(others));
      assert t[..k] == s[..k] && t[k..] == s[k..] + rest;
      SpelledReads(t, |s|, cp, k);
      EscapedText(others, s[k..], rest);
    }
  }

  lemma LeadOf(s: string, units: seq<nat>)
    requires units != [] && Spells(s, units)
    ensures |s| >= 6 && s[0] == BACKSLASH && s[1] == 'u'
  {
  }

  /** The scan for the closing quote passes over literals, whose digits are no quotes. */
  lemma {:induction false} SpelledScans(s: string, units: seq<nat>, rest: string)
    requires Spells(s, units)
    ensures CloseQuote(s + [QUOTE] + rest) == Some(|s|)
  {
    hide HexDigit, Hex4;
    var t := s + [QUOTE] + rest;
    if units != [] {
      var u := s[6..] + [QUOTE] + rest;
      assert t[6..] == u;
      assert forall i | 2 <= i < 6 :: t[i] == s[2..6][i - 2];
      DigitsNoQuote(s[2..6]);
      SpelledScans(s[6..], units[1..], rest);
      SixScanned(t, u, |s| - 6);
    }
  }

  lemma DigitsNoQuote(h: string)
    requires AllHex(h)
    ensures forall i | 0 <= i < |h| :: h[i] != QUOTE && h[i] != BACKSLASH
  {
  }

  lemma SixScanned(t: string, u: string, n: nat)
    requires |t| >= 6 && t[6..] == u && t[0] == BACKSLASH && CloseQuote(u) == Some(n)
    requires forall i | 2 <= i < 6 :: t[i] != QUOTE && t[i] != BACKSLASH
    ensures CloseQuote(t) == Some(n + 6)
  {
    var a, b, c, d := t[2..], t[3..], t[4..], t[5..];
    assert d[1..] == u && c[1..] == d && b[1..] == c && a[1..] == b;
    assert CloseQuote(d) == Some(n + 1) && CloseQuote(c) == Some(n + 2);
    assert CloseQuote(b) == Some(n + 3) && CloseQuote(a) == Some(n + 4);
  }

  lemma {:induction false} Utf8NulFree(cps: seq<nat>)
    requires forall cp | cp in cps :: ScalarValue(cp) && cp != 0
    ensures NulFree(AllUtf8(cps))
  {
    if cps != [] {
      assert cps[0] in cps;
      Utf8NulFree(cps[1..]);
      assert NulFree(Utf8(cps[0]));
    }
  }

  /** So the parser reads a quoted text of literals as the string they stand for. */
  lemma EscapedString(cps: seq<nat>, s: string, rest: string)
    requires forall cp | cp in cps :: ScalarValue(cp) && cp != 0
    requires Spells(s, AllUnits(cps))
    ensures ParseString([QUOTE] + s + [QUOTE] + rest) == Read(AllUtf8(cps), rest)
  {
    hide Spells, AllUnits, AllUtf8, Unescape, CloseQuote, ScalarValue;
    var t := [QUOTE] + s + [QUOTE] + rest;
    assert t[1..] == s + [QUOTE] + rest == s + ([QUOTE] + rest);
    assert t[|s| + 2..] == rest;
    SpelledScans(s, AllUnits(cps), rest);
    EscapedText(cps, s, [QUOTE] + rest);
    Utf8NulFree(cps);
  }

  /** Digits that are not hexadecimal are not rejected: the literal reads as code 0,
      which ends the string for every C reader. */
  lemma MalformedHexReadsAsNul(h: string, rest: string, n: nat)
    requires |h| == 4 && exists i | 0 <= i < 4 :: HexDigit(h[i]).None?
    requires 6 <= n < |"\\u" + h + rest|
    ensures ReadLiteral("\\u" + h + rest, n) == Literal(0, 6)
  {
    assert ("\\u" + h + rest)[2..6] == h;
  }
}
