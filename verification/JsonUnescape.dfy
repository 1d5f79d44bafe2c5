/** The two loops of parse_string: measuring a string literal and unescaping it into
    a buffer of the measured size. */
module JsonUnescape {
  import opened Basics
  import opened JsonText

  // ---- what the measuring loop counts ----

  /** Whether the measuring loop stops at position p, rather than jumping over it as
      the letter of an escape. */
  predicate Aligned(t: string, p: nat)
    requires p <= |t|
  {
    p == 0 || !(Aligned(t, p - 1) && t[p - 1] == BACKSLASH)
  }

  /** How many positions before p the measuring loop stops at. */
  function Stops(t: string, p: nat): (u: nat)
    requires p <= |t|
    ensures u <= p
  {
    if p == 0 then 0 else Stops(t, p - 1) + (if Aligned(t, p - 1) then 1 else 0)
  }

  /** Room for o output bytes when the unescaping loop stands at p; between the two
      halves of an escape it must be one byte ahead. */
  predicate Fits(t: string, p: nat, o: nat)
    requires p <= |t|
  {
    o + (if Aligned(t, p) then 0 else 1) <= Stops(t, p)
  }

  lemma PlainFits(t: string, p: nat, o: nat)
    requires p < |t| && t[p] != BACKSLASH && Fits(t, p, o)
    ensures Fits(t, p + 1, o + 1)
  {
  }

  lemma EscapeFits(t: string, p: nat, o: nat)
    requires p + 2 <= |t| && t[p] == BACKSLASH && Fits(t, p, o)
    ensures Fits(t, p + 2, o + 1)
    ensures Stops(t, p + 2) >= Stops(t, p) + 1
  {
    assert Stops(t, p + 2) == Stops(t, p + 1) + (if Aligned(t, p + 1) then 1 else 0);
  }

  lemma TwoMoreStop(t: string, p: nat)
    requires p + 2 <= |t|
    ensures Stops(t, p + 2) >= Stops(t, p) + 1
  {
    assert Stops(t, p + 2) == Stops(t, p + 1) + (if Aligned(t, p + 1) then 1 else 0);
  }

  lemma FourDigitsStop(t: string, p: nat)
    requires p + 4 <= |t| && Hex4(t[p..p + 4]) != 0
    ensures Stops(t, p + 4) >= Stops(t, p) + 3 && Aligned(t, p + 4)
  {
    var h := t[p..p + 4];
    assert h[0] == t[p] && h[1] == t[p + 1] && h[2] == t[p + 2] && h[3] == t[p + 3];
    assert forall i | 0 <= i < 4 :: h[i] != BACKSLASH;
    assert Aligned(t, p + 1) && Aligned(t, p + 2) && Aligned(t, p + 3);
    assert Stops(t, p + 2) == Stops(t, p + 1) + 1;
    assert Stops(t, p + 3) == Stops(t, p + 2) + 1;
  }

  /** A literal never outgrows the stops it covers, however its digits are malformed. */
  lemma LiteralFits(t: string, p: nat, o: nat, n: nat)
    requires p <= n < |t| && t[p] == BACKSLASH && Fits(t, p, o)
    requires ReadLiteral(t[p..], n - p).Literal?
    ensures var r := ReadLiteral(t[p..], n - p);
            Fits(t, p + r.length, o + |Utf8(r.codepoint)|)
  {
    hide Aligned, Stops, Hex4, Utf8;
    var u := t[p..];
    var r := ReadLiteral(u, n - p);
    assert u[2..6] == t[p + 2..p + 6];
    if r.length == 12 {
      assert u[8..12] == t[p + 8..p + 12];
      PairFits(t, p, o);
    } else {
      SingleFits(t, p, o);
      if r.codepoint == 0 {
        assert |Utf8(0)| == 1 by { OneByte(); }
      } else {
        assert |Utf8(r.codepoint)| <= 3 by { ThreeBytes(r.codepoint); }
      }
    }
  }

  lemma OneByte()
    ensures |Utf8(0)| == 1
  {
  }

  lemma ThreeBytes(cp: nat)
    requires cp < 0x10000
    ensures |Utf8(cp)| <= 3
  {
  }

  lemma PairFits(t: string, p: nat, o: nat)
    requires p + 12 <= |t| && t[p] == BACKSLASH && Fits(t, p, o)
    requires Hex4(t[p + 2..p + 6]) != 0 && Hex4(t[p + 8..p + 12]) != 0
    ensures Fits(t, p + 12, o + 4)
  {
    hide Hex4;
    EscapeFits(t, p, o);
    FourDigitsStop(t, p + 2);
    TwoMoreStop(t, p + 6);
    FourDigitsStop(t, p + 8);
  }

  lemma SingleFits(t: string, p: nat, o: nat)
    requires p + 6 <= |t| && t[p] == BACKSLASH && Fits(t, p, o)
    ensures Fits(t, p + 6, o + 1)
    ensures Hex4(t[p + 2..p + 6]) != 0 ==> Fits(t, p + 6, o + 3)
  {
    hide Hex4;
    EscapeFits(t, p, o);
    TwoMoreStop(t, p + 2);
    TwoMoreStop(t, p + 4);
    if Hex4(t[p + 2..p + 6]) != 0 {
      FourDigitsStop(t, p + 2);
    }
  }

  // ---- code points ----

  method ParseHex4(content: string, at: nat) returns (h: nat)
    requires at + 4 <= |content|
    ensures h == Hex4(content[at..at + 4])
  {
    h := 0;
    ghost var s := content[at..at + 4];
    for i := 0 to 4
      invariant forall j | 0 <= j < i :: HexDigit(s[j]).Some?
      invariant i == 0 ==> h == 0
      invariant i == 1 ==> h == 16 * HexDigit(s[0]).value
      invariant i == 2 ==> h == 256 * HexDigit(s[0]).value + 16 * HexDigit(s[1]).value
      invariant i == 3 ==>
          h == 4096 * HexDigit(s[0]).value + 256 * HexDigit(s[1]).value + 16 * HexDigit(s[2]).value
      invariant i == 4 ==> h == Hex4(s)
    {
      assert content[at + i] == s[i];
      match HexDigit(content[at + i])
      case None => return 0;
      case Some(d) =>
        h := h + d;
        if i < 3 {
          h := h * 16;
        }
    }
  }

  /** Bits of a first byte that announce how many bytes follow. */
  function FirstByteMark(length: nat): nat {
    if length == 2 then 0xC0 else if length == 3 then 0xE0 else if length == 4 then 0xF0 else 0
  }

  /** Writes the UTF-8 form of a code point at index o, last byte first. */
  method WriteUtf8(codepoint: nat, output: array<char>, o: nat) returns (next: nat)
    requires codepoint <= 0x10FFFF && o + |Utf8(codepoint)| <= output.Length
    modifies output
    ensures next == o + |Utf8(codepoint)|
    ensures output[..o] == old(output[..o]) && output[o..next] == Utf8(codepoint)
  {
    var length := if codepoint < 0x80 then 1 else if codepoint < 0x800 then 2 else if codepoint < 0x10000 then 3 else 4;
    var cp := codepoint;
    var position := length - 1;
    while position > 0
      invariant 0 <= position < length
      invariant cp == (if length - position == 1 then codepoint
                       else if length - position == 2 then codepoint / 0x40
                       else if length - position == 3 then codepoint / 0x1000
                       else codepoint / 0x40000)
      invariant output[..o] == old(output[..o])
      invariant forall i | position < i < length :: output[o + i] == Utf8(codepoint)[i]
    {
      output[o + position] := (0x80 + cp % 0x40) as char;
      cp := cp / 0x40;
      position := position - 1;
    }
    output[o] := (cp + FirstByteMark(length)) as char;
    next := o + length;
  }

  // ---- the literal as a whole ----

  /** The measuring loop stands at k, having counted the escapes before it. */
  predicate Measured(t: string, k: nat, skipped: nat) {
    && k <= |t| && Aligned(t, k) && Stops(t, k) + skipped == k
    && CloseQuote(t) == match CloseQuote(t[k..]) case None => None case Some(m) => Some(m + k)
  }

  lemma MeasurePlain(t: string, k: nat, skipped: nat)
    requires k < |t| && t[k] != QUOTE && t[k] != BACKSLASH && Measured(t, k, skipped)
    ensures Measured(t, k + 1, skipped)
  {
    assert t[k..][1..] == t[k + 1..];
  }

  lemma MeasureEscape(t: string, k: nat, skipped: nat)
    requires k < |t| && t[k] == BACKSLASH && Measured(t, k, skipped)
    ensures if k + 1 < |t| then Measured(t, k + 2, skipped + 1) else CloseQuote(t).None?
  {
    hide CloseQuote, Aligned, Stops;
    QuoteBehindEscape(t[k..]);
    if k + 1 < |t| {
      assert t[k..][2..] == t[k + 2..];
      EscapeCounted(t, k);
    }
  }

  lemma QuoteBehindEscape(s: string)
    requires s != "" && s[0] == BACKSLASH
    ensures |s| == 1 ==> CloseQuote(s) == None
    ensures |s| > 1 ==> CloseQuote(s) == match CloseQuote(s[2..]) case None => None case Some(n) => Some(n + 2)
  {
  }

  lemma EscapeCounted(t: string, k: nat)
    requires k + 1 < |t| && t[k] == BACKSLASH && Aligned(t, k)
    ensures Aligned(t, k + 2) && Stops(t, k + 2) == Stops(t, k) + 1
  {
    assert !Aligned(t, k + 1) && Aligned(t, k + 2);
    assert Stops(t, k + 2) == Stops(t, k + 1);
  }

  /** Position of the closing quote and the number of escapes before it. */
  method Measure(content: string, start: nat) returns (end: Option<nat>, skipped: nat)
    requires start <= |content|
    ensures end.None? ==> CloseQuote(content[start..]).None?
    ensures end.Some? ==> start <= end.value && CloseQuote(content[start..]) == Some(end.value - start)
    ensures end.Some? ==> Measured(content[start..], end.value - start, skipped)
  {
    hide CloseQuote, Aligned, Stops;
    ghost var t := content[start..];
    assert Measured(t, 0, 0) by { MeasureStart(t); }
    var e := start;
    skipped := 0;
    while e < |content| && content[e] != QUOTE
      invariant start <= e <= |content|
      invariant Measured(t, e - start, skipped)
    {
      assert t[e - start] == content[e];
      if content[e] == BACKSLASH {
        MeasureEscape(t, e - start, skipped);
        if e + 1 >= |content| {
          return None, skipped;
        }
        skipped := skipped + 1;
        e := e + 1;
      } else {
        MeasurePlain(t, e - start, skipped);
      }
      e := e + 1;
    }
    MeasureEnd(t, e - start, skipped);
    if e >= |content| {
      return None, skipped;
    }
    end := Some(e);
  }

  lemma MeasureStart(t: string)
    ensures Measured(t, 0, 0)
  {
    assert t[0..] == t;
  }

  lemma MeasureEnd(t: string, k: nat, skipped: nat)
    requires Measured(t, k, skipped)
    ensures k == |t| ==> CloseQuote(t).None?
    ensures k < |t| && t[k] == QUOTE ==> CloseQuote(t) == Some(k)
  {
  }

  // ---- unescaping into the buffer ----

  /** The unescaping loop stands at p and has produced out.  It can stand one past the
      closing quote n, when it took that quote for the letter of an escape. */
  predicate Unescaped(t: string, n: nat, p: nat, out: string)
    requires n < |t|
  {
    if p <= n then Unescape(t, n) == Prepend(out, Unescape(t[p..], n - p))
    else p == n + 1 && Unescape(t, n) == Some(out)
  }

  lemma PrependTwice(a: string, b: string, r: Option<string>)
    ensures Prepend(a, Prepend(b, r)) == Prepend(a + b, r)
  {
    if r.Some? {
      assert a + (b + r.value) == (a + b) + r.value;
    }
  }

  lemma UnescapedStart(t: string, n: nat)
    requires n < |t|
    ensures Unescaped(t, n, 0, "")
  {
    assert t[0..] == t;
    if Unescape(t, n).Some? {
      assert "" + Unescape(t, n).value == Unescape(t, n).value;
    }
  }

  lemma UnescapedEnd(t: string, n: nat, p: nat, out: string)
    requires n < |t| && n <= p && Unescaped(t, n, p, out)
    ensures Unescape(t, n) == Some(out)
  {
    assert out + "" == out;
  }

  lemma UnescapedPlain(t: string, n: nat, p: nat, out: string)
    requires p < n < |t| && t[p] != BACKSLASH && Unescaped(t, n, p, out)
    ensures Unescaped(t, n, p + 1, out + [t[p]])
  {
    var u := t[p..];
    assert u[1..] == t[p + 1..];
    assert Unescape(u, n - p) == Prepend([t[p]], Unescape(u[1..], n - p - 1));
    PrependTwice(out, [t[p]], Unescape(t[p + 1..], n - p - 1));
  }

  lemma UnescapedShort(t: string, n: nat, p: nat, out: string)
    requires p < n < |t| && t[p] == BACKSLASH && t[p + 1] != 'u' && Unescaped(t, n, p, out)
    ensures match ShortEscape(t[p + 1])
            case None => Unescape(t, n) == None
            case Some(c) => Unescaped(t, n, p + 2, out + [c])
  {
    var u := t[p..];
    assert u[0] == t[p] && u[1] == t[p + 1];
    match ShortEscape(t[p + 1])
    case None =>
    case Some(c) =>
      if p + 1 < n {
        assert u[2..] == t[p + 2..];
        PrependTwice(out, [c], Unescape(t[p + 2..], n - p - 2));
      }
  }

  lemma UnescapedLiteral(t: string, n: nat, p: nat, out: string)
    requires p < n < |t| && t[p] == BACKSLASH && t[p + 1] == 'u' && Unescaped(t, n, p, out)
    ensures match ReadLiteral(t[p..], n - p)
            case BadLiteral => Unescape(t, n) == None
            case Literal(cp, length) => Unescaped(t, n, p + length, out + Utf8(cp))
  {
    hide Utf8, ReadLiteral;
    var u := t[p..];
    assert u[0] == t[p] && u[1] == t[p + 1];
    match ReadLiteral(u, n - p)
    case BadLiteral =>
    case Literal(cp, length) =>
      assert u[length..] == t[p + length..];
      PrependTwice(out, Utf8(cp), Unescape(t[p + length..], n - p - length));
  }

  method Utf16LiteralToUtf8(content: string, at: nat, end: nat, output: array<char>, o: nat)
    returns (length: nat, next: nat)
    requires at <= end < |content| && o <= output.Length
    requires var r := ReadLiteral(content[at..], end - at);
             r.Literal? ==> o + |Utf8(r.codepoint)| <= output.Length
    modifies output
    ensures output[..o] == old(output[..o])
    ensures match ReadLiteral(content[at..], end - at)
            case BadLiteral => length == 0
            case Literal(cp, l) => length == l && next == o + |Utf8(cp)| && output[o..next] == Utf8(cp)
  {
    hide Utf8, Hex4;
    ghost var t := content[at..];
    next := o;
    if end - at < 6 {
      return 0, o;
    }
    assert t[2..6] == content[at + 2..at + 6];
    var first := ParseHex4(content, at + 2);
    var codepoint := first;
    length := 6;
    if LowSurrogate(first) {
      return 0, o;
    }
    if HighSurrogate(first) {
      length := 12;
      if end - (at + 6) < 6 || content[at + 6] != BACKSLASH || content[at + 7] != 'u' {
        return 0, o;
      }
      assert t[8..12] == content[at + 8..at + 12];
      var second := ParseHex4(content, at + 8);
      if !LowSurrogate(second) {
        return 0, o;
      }
      codepoint := 0x10000 + (first % 0x400) * 0x400 + second % 0x400;
    }
    next := WriteUtf8(codepoint, output, o);
  }

  /** The unescaping loop stands at p with o bytes written and room for the rest. */
  predicate Placed(t: string, n: nat, p: nat, o: nat)
    requires n < |t|
  {
    o <= Stops(t, n) && (if p <= n then Fits(t, p, o) else p == n + 1)
  }

  lemma {:induction false} StopsGrow(t: string, p: nat, n: nat)
    requires p <= n <= |t|
    ensures Stops(t, p) <= Stops(t, n)
    decreases n - p
  {
    if p < n {
      StopsGrow(t, p + 1, n);
    }
  }

  lemma PlacedPlain(t: string, n: nat, p: nat, o: nat)
    requires p < n < |t| && t[p] != BACKSLASH && Placed(t, n, p, o)
    ensures Placed(t, n, p + 1, o + 1)
  {
    PlainFits(t, p, o);
    StopsGrow(t, p + 1, n);
  }

  lemma PlacedShort(t: string, n: nat, p: nat, o: nat)
    requires p < n < |t| && t[p] == BACKSLASH && Placed(t, n, p, o) && Aligned(t, n)
    ensures Placed(t, n, p + 2, o + 1)
  {
    if p + 2 <= n {
      EscapeFits(t, p, o);
      StopsGrow(t, p + 2, n);
    } else {
      assert !Aligned(t, n - 1);
      StopsGrow(t, p, n);
    }
  }

  lemma PlacedLiteral(t: string, n: nat, p: nat, o: nat)
    requires p < n < |t| && t[p] == BACKSLASH && Placed(t, n, p, o)
    requires ReadLiteral(t[p..], n - p).Literal?
    ensures var r := ReadLiteral(t[p..], n - p);
            Placed(t, n, p + r.length, o + |Utf8(r.codepoint)|)
  {
    hide Utf8, Hex4, Aligned;
    LiteralFits(t, p, o, n);
    StopsGrow(t, p + ReadLiteral(t[p..], n - p).length, n);
  }

  /** One escape of the loop; length 0 means that the string is malformed. */
  method UnescapeOne(content: string, start: nat, end: nat, output: array<char>, p: nat, o: nat)
    returns (length: nat, next: nat)
    requires start <= p < end < |content| && content[p] == BACKSLASH
    requires o <= output.Length
    requires var t, n := content[start..], end - start;
             Aligned(t, n) && Placed(t, n, p - start, o) && Stops(t, n) < output.Length
    requires Unescaped(content[start..], end - start, p - start, output[..o])
    modifies output
    ensures length == 0 ==> Unescape(content[start..], end - start) == None
    ensures length > 0 ==>
              && next <= output.Length
              && Placed(content[start..], end - start, p + length - start, next)
              && Unescaped(content[start..], end - start, p + length - start, output[..next])
  {
    hide Unescape, Aligned, Stops, ReadLiteral, Utf8, Unescaped, Fits;
    ghost var t := content[start..];
    ghost var n := end - start;
    ghost var q := p - start;
    ghost var out := output[..o];
    assert t[q] == content[p] && t[q + 1] == content[p + 1] && t[q..] == content[p..];
    if content[p + 1] == 'u' {
      UnescapedLiteral(t, n, q, out);
      if ReadLiteral(t[q..], n - q).Literal? {
        PlacedLiteral(t, n, q, o);
      }
      length, next := Utf16LiteralToUtf8(content, p, end, output, o);
      if length != 0 {
        assert output[..next] == output[..o] + output[o..next];
      }
    } else {
      UnescapedShort(t, n, q, out);
      match ShortEscape(content[p + 1])
      case None => return 0, o;
      case Some(c) =>
        PlacedShort(t, n, q, o);
        output[o] := c;
        assert output[..o + 1] == out + [c];
        return 2, o + 1;
    }
  }

  /** Unescapes content[start..end] into a buffer that the measuring loop sized. */
  method UnescapeInto(content: string, start: nat, end: nat, output: array<char>)
    returns (r: Option<nat>)
    requires start <= end < |content|
    requires Aligned(content[start..], end - start)
    requires Stops(content[start..], end - start) < output.Length
    modifies output
    ensures match r
            case None => Unescape(content[start..], end - start) == None
            case Some(o) =>
              && o <= Stops(content[start..], end - start)
              && Unescape(content[start..], end - start) == Some(output[..o])
  {
    hide Unescape, Aligned, Stops, Unescaped, Fits;
    ghost var t := content[start..];
    ghost var n := end - start;
    var p := start;
    var o := 0;
    UnescapedStart(t, n);
    assert output[..0] == "";
    assert Placed(t, n, 0, 0) by { PlacedStart(t, n); }
    while p < end
      invariant start <= p <= end + 1 && 0 <= o < output.Length
      invariant Placed(t, n, p - start, o)
      invariant Unescaped(t, n, p - start, output[..o])
      decreases end + 1 - p
    {
      assert t[p - start] == content[p];
      if content[p] != BACKSLASH {
        PlacedPlain(t, n, p - start, o);
        ghost var out := output[..o];
        UnescapedPlain(t, n, p - start, out);
        output[o] := content[p];
        assert output[..o + 1] == out + [content[p]];
        o := o + 1;
        p := p + 1;
      } else {
        var length, next := UnescapeOne(content, start, end, output, p, o);
        if length == 0 {
          return None;
        }
        o := next;
        p := p + length;
      }
    }
    UnescapedEnd(t, n, p - start, output[..o]);
    return Some(o);
  }

  lemma PlacedStart(t: string, n: nat)
    requires n < |t|
    ensures Placed(t, n, 0, 0)
  {
  }

  /** Measuring bounds unescaping: whatever the literal, its unescaped form and a
      terminator need at most one byte more than the characters outside escapes. */
  lemma {:induction false} UnescapeFits(t: string, n: nat, skipped: nat, p: nat, out: string)
    requires n < |t| && Measured(t, n, skipped) && Unescape(t, n).Some?
    requires Placed(t, n, p, |out|) && Unescaped(t, n, p, out)
    ensures |Unescape(t, n).value| + skipped <= n
    decreases n + 1 - p
  {
    hide Unescape, Unescaped, Aligned, Utf8, Fits;
    if p >= n {
      UnescapedEnd(t, n, p, out);
    } else if t[p] != BACKSLASH {
      PlacedPlain(t, n, p, |out|);
      UnescapedPlain(t, n, p, out);
      UnescapeFits(t, n, skipped, p + 1, out + [t[p]]);
    } else if t[p + 1] == 'u' {
      UnescapedLiteral(t, n, p, out);
      var r := ReadLiteral(t[p..], n - p);
      PlacedLiteral(t, n, p, |out|);
      UnescapeFits(t, n, skipped, p + r.length, out + Utf8(r.codepoint));
    } else {
      UnescapedShort(t, n, p, out);
      PlacedShort(t, n, p, |out|);
      UnescapeFits(t, n, skipped, p + 2, out + [ShortEscape(t[p + 1]).value]);
    }
  }

  /** cJSON allocates two bytes more than the stops of the literal; that is always enough,
      even when malformed \u sequences swallow characters the measuring loop skipped. */
  lemma AllocationSuffices(t: string, n: nat, skipped: nat)
    requires n < |t| && Measured(t, n, skipped) && Unescape(t, n).Some?
    ensures |Unescape(t, n).value| + 1 <= (n + 1) - skipped
  {
    hide Unescape, Unescaped, Measured;
    UnescapedStart(t, n);
    PlacedStart(t, n);
    UnescapeFits(t, n, skipped, 0, "");
  }
}
