/** The strings of the JSON grammar (section 7 of RFC 8259), and those that the parser accepts
    besides. */
module JsonPieces {
  import opened Basics
  import opened JsonText
  import opened JsonRender
  import opened JsonUnicode
  import T = JsonRoundTrip
  import M = JsonMinify

  /** A character as it is, one of the eight short escapes, a \u literal, or two of them for
      a surrogate pair. */
  datatype Piece = Plain(c: char) | Short(letter: char) | Unit(digits: string) | Pair(high: string, low: string)
  {
    /** What is accepted: any character in a plain place, and any four for digits. */
    predicate Loose() {
      match this
      case Plain(c) => c != BACKSLASH
      case Short(letter) => letter in ['\"', '\\', '/', 'b', 'f', 'n', 'r', 't']
      case Unit(digits) => |digits| == 4 && ScalarValue(Hex4(digits))
      case Pair(high, low) =>
        |high| == 4 && HighSurrogate(Hex4(high)) && |low| == 4 && LowSurrogate(Hex4(low))
    }

    predicate Valid() {
      && Loose()
      && match this
         case Plain(c) => c >= ' ' && c != QUOTE
         case Short(_) => true
         case Unit(digits) => AllHex(digits)
         case Pair(high, low) => AllHex(high) && AllHex(low)
    }

    function Text(): string {
      match this
      case Plain(c) => [c]
      case Short(letter) => ['\\', letter]
      case Unit(digits) => "\\u" + digits
      case Pair(high, low) => "\\u" + (high + ("\\u" + low))
    }

    function Value(): string
      requires Loose()
    {
      match this
      case Plain(c) => [c]
      case Short(letter) =>
        [if letter == 'b' then '\U{8}' else if letter == 'f' then '\U{c}' else if letter == 'n' then '\U{a}'
         else if letter == 'r' then '\U{d}' else if letter == 't' then '\U{9}' else letter]
      case Unit(digits) => Utf8(Hex4(digits))
      case Pair(high, low) => Utf8(0x10000 + (Hex4(high) - 0xD800) * 0x400 + (Hex4(low) - 0xDC00))
    }
  }

  predicate LoosePieces(ps: seq<Piece>) {
    ps == [] || (ps[0].Loose() && LoosePieces(ps[1..]))
  }

  predicate Pieces(ps: seq<Piece>): (r: bool)
    ensures r ==> LoosePieces(ps)
  {
    ps == [] || (ps[0].Valid() && Pieces(ps[1..]))
  }

  function PiecesText(ps: seq<Piece>): string {
    if ps == [] then "" else ps[0].Text() + PiecesText(ps[1..])
  }

  function PiecesValue(ps: seq<Piece>): string
    requires LoosePieces(ps)
  {
    if ps == [] then "" else ps[0].Value() + PiecesValue(ps[1..])
  }

  // ---- pieces are read ----

  lemma PieceReads(p: Piece, t: string, n: nat)
    requires p.Loose() && n < |t|
    ensures Unescape(p.Text() + t, |p.Text()| + n) == Prepend(p.Value(), Unescape(t, n))
  {
    hide Hex4, Utf8;
    var u := p.Text() + t;
    assert u[|p.Text()|..] == t;
    match p
    case Plain(_) =>
    case Short(_) =>
      if n == 0 {
        assert Unescape(t, 0) == Some("") && p.Value() + "" == p.Value();
      }
    case Unit(digits) =>
      assert u[2..6] == digits;
      assert ReadLiteral(u, 6 + n) == Literal(Hex4(digits), 6);
    case Pair(high, low) =>
      PairReads(high, low, t, n);
  }

  lemma PairReads(high: string, low: string, t: string, n: nat)
    requires var p := Pair(high, low); p.Loose() && n < |t|
    ensures var p := Pair(high, low);
            var cp := 0x10000 + (Hex4(high) - 0xD800) * 0x400 + (Hex4(low) - 0xDC00);
            cp <= 0x10FFFF && ReadLiteral(p.Text() + t, 12 + n) == Literal(cp, 12)
  {
    hide Hex4;
    var u := Pair(high, low).Text() + t;
    assert u[2..6] == high && u[8..12] == low && u[6] == BACKSLASH && u[7] == 'u';
    assert Hex4(high) % 0x400 == Hex4(high) - 0xD800 && Hex4(low) % 0x400 == Hex4(low) - 0xDC00;
  }

  lemma {:induction false} PiecesRead(ps: seq<Piece>, t: string, n: nat)
    requires LoosePieces(ps) && n < |t|
    ensures Unescape(PiecesText(ps) + t, |PiecesText(ps)| + n) == Prepend(PiecesValue(ps), Unescape(t, n))
  {
    hide Unescape, Piece.Text, Piece.Value, Piece.Loose;
    if ps == [] {
      assert "" + t == t;
      PrependNothing(Unescape(t, n));
    } else {
      var e, es := ps[0].Text(), PiecesText(ps[1..]);
      PiecesRead(ps[1..], t, n);
      PieceReads(ps[0], es + t, |es| + n);
      assert e + (es + t) == (e + es) + t;
      PrependTwice(ps[0].Value(), PiecesValue(ps[1..]), Unescape(t, n));
    }
  }

  lemma PrependNothing(r: Option<string>)
    ensures Prepend("", r) == r
  {
    if r.Some? {
      assert "" + r.value == r.value;
    }
  }

  lemma PrependTwice(v: string, w: string, r: Option<string>)
    ensures Prepend(v, Prepend(w, r)) == Prepend(v + w, r)
  {
    if r.Some? {
      assert v + (w + r.value) == (v + w) + r.value;
    }
  }

  // ---- pieces are passed by the scan for the closing quote ----

  lemma PieceScans(p: Piece, t: string)
    requires p.Valid() && t != ""
    ensures CloseQuote(p.Text() + t) == match CloseQuote(t) case None => None case Some(n) => Some(|p.Text()| + n)
  {
    hide CloseQuote, Hex4, Utf8;
    match p
    case Plain(c) => OneScans(c, t);
    case Short(letter) => TwoScan(letter, t);
    case Unit(digits) => DigitsScan(digits, t);
    case Pair(high, low) =>
      DigitsScan(low, t);
      DigitsScan(high, "\\u" + low + t);
      PairText(high, low, t);
  }

  lemma OneScans(c: char, t: string)
    requires c != QUOTE && c != BACKSLASH
    ensures CloseQuote([c] + t) == match CloseQuote(t) case None => None case Some(n) => Some(1 + n)
  {
    assert ([c] + t)[1..] == t;
  }

  lemma TwoScan(letter: char, t: string)
    ensures CloseQuote(['\\', letter] + t) == match CloseQuote(t) case None => None case Some(n) => Some(2 + n)
  {
    assert (['\\', letter] + t)[2..] == t;
  }

  lemma DigitsScan(h: string, t: string)
    requires |h| == 4 && AllHex(h) && t != ""
    ensures CloseQuote("\\u" + h + t) == match CloseQuote(t) case None => None case Some(n) => Some(6 + n)
  {
    hide CloseQuote;
    DigitsNoQuote(h);
    T.UnicodeScans(h, t);
  }

  lemma PairText(high: string, low: string, t: string)
    ensures "\\u" + (high + ("\\u" + low)) + t == "\\u" + high + ("\\u" + low + t)
  {
  }

  lemma {:induction false} PiecesScan(ps: seq<Piece>, t: string)
    requires Pieces(ps) && t != ""
    ensures CloseQuote(PiecesText(ps) + t)
         == match CloseQuote(t) case None => None case Some(n) => Some(|PiecesText(ps)| + n)
  {
    hide CloseQuote, Piece.Text, Piece.Valid;
    if ps == [] {
      assert "" + t == t;
    } else {
      var e, es := ps[0].Text(), PiecesText(ps[1..]);
      PiecesScan(ps[1..], t);
      PieceScans(ps[0], es + t);
      assert e + (es + t) == (e + es) + t;
    }
  }

  /** A string of the grammar is read as the characters it stands for, as far as a C string
      goes. */
  lemma StringParses(ps: seq<Piece>, rest: string)
    requires Pieces(ps)
    ensures ParseString([QUOTE] + (PiecesText(ps) + ([QUOTE] + rest))) == Read(CString(PiecesValue(ps)), rest)
  {
    hide Pieces, PiecesText, PiecesValue, CString, ParseString, Literals;
    PiecesAreLiterals(ps);
    LiteralParses(PiecesText(ps), CString(PiecesValue(ps)), rest);
  }

  lemma QuotedParses(e: string, rest: string)
    ensures var s, t := [QUOTE] + (e + ([QUOTE] + rest)), e + ([QUOTE] + rest);
            CloseQuote(t) == Some(|e|) ==>
              ParseString(s) == match Unescape(t, |e|) case None => Fail case Some(w) => Read(CString(w), rest)
  {
    hide CloseQuote, Unescape, CString;
    var s := [QUOTE] + (e + ([QUOTE] + rest));
    assert s[1..] == e + ([QUOTE] + rest) && s[|e| + 2..] == rest;
  }

  lemma ClosesHere(rest: string)
    ensures CloseQuote([QUOTE] + rest) == Some(0) && Unescape([QUOTE] + rest, 0) == Some("")
  {
  }

  /** A string in which a backslash stands in front of any other character than the eight and u
      is rejected, whatever it contains in front of that and behind. */
  lemma BadEscapeRejected(ps: seq<Piece>, letter: char, rest: string)
    requires Pieces(ps) && letter !in ['\"', '\\', '/', 'b', 'f', 'n', 'r', 't', 'u']
    ensures ParseString([QUOTE] + (PiecesText(ps) + ([BACKSLASH, letter] + rest))) == Fail
  {
    hide CloseQuote, Unescape, CString, PiecesText, PiecesValue, Pieces, ParseString;
    var e, t := PiecesText(ps), [BACKSLASH, letter] + rest;
    PiecesScan(ps, t);
    LetterFails(letter, rest);
    if CloseQuote(t).Some? {
      PiecesRead(ps, t, CloseQuote(t).value);
    }
    BadString(e, t);
  }

  lemma BadString(e: string, t: string)
    requires CloseQuote(e + t).None? || Unescape(e + t, CloseQuote(e + t).value).None?
    ensures ParseString([QUOTE] + (e + t)) == Fail
  {
    hide CloseQuote, Unescape, CString;
    assert ([QUOTE] + (e + t))[1..] == e + t;
  }

  lemma LetterFails(letter: char, rest: string)
    requires letter !in ['\"', '\\', '/', 'b', 'f', 'n', 'r', 't', 'u']
    ensures var t := [BACKSLASH, letter] + rest;
            CloseQuote(t).Some? ==> CloseQuote(t).value >= 2 && Unescape(t, CloseQuote(t).value) == None
  {
  }

  // ---- what else is read ----

  /** Every backslash has a character behind it, and every quote a backslash in front of it. */
  predicate Paired(raw: string) {
    raw == "" ||
    if raw[0] == BACKSLASH then |raw| > 1 && Paired(raw[2..]) else raw[0] != QUOTE && Paired(raw[1..])
  }

  /** Pieces; a backslash that is left over behind the last of them takes the closing quote. */
  ghost predicate Written(raw: string, v: string) {
    exists ps: seq<Piece>, over: bool ::
      LoosePieces(ps) && raw == PiecesText(ps) + Over(over, BACKSLASH) && v == PiecesValue(ps) + Over(over, QUOTE)
  }

  function Over(over: bool, c: char): string {
    if over then [c] else ""
  }

  lemma {:induction false} PairedCloses(raw: string, rest: string)
    ensures CloseQuote(raw + ([QUOTE] + rest)) == Some(|raw|) <==> Paired(raw)
  {
    var t := raw + ([QUOTE] + rest);
    if raw == "" {
      assert t[0] == QUOTE;
    } else if raw[0] == BACKSLASH {
      if |raw| > 1 {
        PairedCloses(raw[2..], rest);
        assert t[2..] == raw[2..] + ([QUOTE] + rest);
      }
    } else {
      PairedCloses(raw[1..], rest);
      assert t[1..] == raw[1..] + ([QUOTE] + rest);
    }
  }

  lemma {:induction false} UnescapeWritten(raw: string, rest: string) returns (ps: seq<Piece>, over: bool)
    requires Unescape(raw + ([QUOTE] + rest), |raw|).Some?
    ensures LoosePieces(ps) && raw == PiecesText(ps) + Over(over, BACKSLASH)
    ensures Unescape(raw + ([QUOTE] + rest), |raw|).value == PiecesValue(ps) + Over(over, QUOTE)
    decreases |raw|
  {
    hide Unescape, PiecesText, PiecesValue, LoosePieces, Piece.Text, Piece.Value, Piece.Loose;
    NoPieces();
    if raw == "" || raw == [BACKSLASH] {
      ps, over := [], raw != "";
      assert "" + raw == raw == Over(over, BACKSLASH) && "" + Over(over, QUOTE) == Over(over, QUOTE);
      LeftOver(over, rest);
    } else {
      hide Over;
      var p := FirstPiece(raw, rest);
      var k := |p.Text()|;
      CutOff(p.Text(), raw, rest);
      var others: seq<Piece>;
      others, over := UnescapeWritten(raw[k..], rest);
      PieceReads(p, (raw + ([QUOTE] + rest))[k..], |raw| - k);
      ps := [p] + others;
      PiecesJoin(p, others, Over(over, BACKSLASH), Over(over, QUOTE));
    }
  }

  lemma NoPieces()
    ensures LoosePieces([]) && PiecesText([]) == "" && PiecesValue([]) == ""
  {
  }

  lemma CutOff(e: string, raw: string, rest: string)
    requires e <= raw
    ensures var t := raw + ([QUOTE] + rest);
            raw == e + raw[|e|..] && t == e + t[|e|..] && t[|e|..] == raw[|e|..] + ([QUOTE] + rest)
  {
  }

  lemma PiecesJoin(p: Piece, ps: seq<Piece>, more: string, taken: string)
    requires p.Loose() && LoosePieces(ps)
    ensures LoosePieces([p] + ps) && PiecesText([p] + ps) + more == p.Text() + (PiecesText(ps) + more)
    ensures PiecesValue([p] + ps) + taken == p.Value() + (PiecesValue(ps) + taken)
  {
    hide Piece.Text, Piece.Value, Piece.Loose;
    assert ([p] + ps)[1..] == ps;
  }

  lemma FirstPiece(raw: string, rest: string) returns (p: Piece)
    requires raw != "" && raw != [BACKSLASH] && Unescape(raw + ([QUOTE] + rest), |raw|).Some?
    ensures p.Loose() && p.Text() != "" && p.Text() <= raw
    ensures Unescape((raw + ([QUOTE] + rest))[|p.Text()|..], |raw| - |p.Text()|).Some?
  {
    hide Hex4, Utf8, ReadLiteral;
    var t := raw + ([QUOTE] + rest);
    if raw[0] != BACKSLASH {
      p := Plain(raw[0]);
    } else if raw[1] != 'u' {
      p := Short(raw[1]);
    } else {
      p := LiteralPiece(raw, rest);
    }
  }

  lemma LiteralPiece(raw: string, rest: string) returns (p: Piece)
    requires |raw| > 1 && raw[0] == BACKSLASH && raw[1] == 'u' && ReadLiteral(raw + ([QUOTE] + rest), |raw|).Literal?
    ensures p.Loose() && p.Text() <= raw && |p.Text()| == ReadLiteral(raw + ([QUOTE] + rest), |raw|).length
  {
    hide Hex4, Utf8;
    var t := raw + ([QUOTE] + rest);
    assert t[2..6] == raw[2..6];
    if ReadLiteral(t, |raw|).length == 6 {
      p := Unit(raw[2..6]);
    } else {
      assert t[8..12] == raw[8..12] && t[6] == raw[6] && t[7] == raw[7];
      p := Pair(raw[2..6], raw[8..12]);
    }
  }

  lemma PiecesUnescape(ps: seq<Piece>, over: bool, rest: string)
    requires LoosePieces(ps)
    ensures var raw := PiecesText(ps) + Over(over, BACKSLASH);
            Unescape(raw + ([QUOTE] + rest), |raw|) == Some(PiecesValue(ps) + Over(over, QUOTE))
  {
    hide Unescape, PiecesText, PiecesValue, LoosePieces, Over;
    var x := Over(over, BACKSLASH) + ([QUOTE] + rest);
    LeftOver(over, rest);
    PiecesRead(ps, x, |Over(over, BACKSLASH)|);
    assert PiecesText(ps) + Over(over, BACKSLASH) + ([QUOTE] + rest) == PiecesText(ps) + x;
  }

  lemma UnescapeExact(raw: string, rest: string, v: string)
    ensures Unescape(raw + ([QUOTE] + rest), |raw|) == Some(v) <==> Written(raw, v)
  {
    hide Unescape, PiecesText, PiecesValue, LoosePieces, Over;
    if Unescape(raw + ([QUOTE] + rest), |raw|) == Some(v) {
      var ps, over := UnescapeWritten(raw, rest);
    }
    if ps: seq<Piece>, over: bool :|
         LoosePieces(ps) && raw == PiecesText(ps) + Over(over, BACKSLASH) && v == PiecesValue(ps) + Over(over, QUOTE)
    {
      PiecesUnescape(ps, over, rest);
    }
  }

  lemma LeftOver(over: bool, rest: string)
    ensures Unescape(Over(over, BACKSLASH) + ([QUOTE] + rest), |Over(over, BACKSLASH)|) == Some(Over(over, QUOTE))
  {
  }

  /** A quoted literal that stands for value. */
  ghost predicate Literals(raw: string, value: string) {
    Paired(raw) && exists w: string :: Written(raw, w) && value == CString(w)
  }

  /** What is read as a string, and as which. */
  lemma StringExact(s: string, value: string, rest: string)
    ensures ParseString(s) == Read(value, rest) <==>
            exists raw: string :: s == [QUOTE] + (raw + ([QUOTE] + rest)) && Literals(raw, value)
  {
    hide CloseQuote, Unescape, CString, Written, Paired;
    if ParseString(s) == Read(value, rest) {
      var raw := StringRead(s);
    }
    if raw: string :| s == [QUOTE] + (raw + ([QUOTE] + rest)) && Literals(raw, value) {
      LiteralParses(raw, value, rest);
    }
  }

  lemma StringRead(s: string) returns (raw: string)
    requires ParseString(s).Read?
    ensures Literals(raw, ParseString(s).value) && s == [QUOTE] + (raw + ([QUOTE] + ParseString(s).rest))
  {
    hide CloseQuote, Unescape, CString, Written, Paired;
    var t := s[1..];
    var n := CloseQuote(t).value;
    raw := t[..n];
    var rest := s[n + 2..];
    assert s == [QUOTE] + (raw + ([QUOTE] + rest)) && t == raw + ([QUOTE] + rest);
    PairedCloses(raw, rest);
    UnescapeExact(raw, rest, Unescape(t, n).value);
  }

  lemma LiteralParses(raw: string, value: string, rest: string)
    requires Literals(raw, value)
    ensures ParseString([QUOTE] + (raw + ([QUOTE] + rest))) == Read(value, rest)
  {
    hide CloseQuote, Unescape, CString, Written, Paired, ParseString;
    var w: string :| Written(raw, w) && value == CString(w);
    PairedCloses(raw, rest);
    UnescapeExact(raw, rest, w);
    QuotedParses(raw, rest);
  }

  lemma PiecesAreLiterals(ps: seq<Piece>)
    requires Pieces(ps)
    ensures Literals(PiecesText(ps), CString(PiecesValue(ps)))
  {
    hide CloseQuote, CString, Pieces, LoosePieces, PiecesText, PiecesValue, Paired;
    var raw, v := PiecesText(ps), PiecesValue(ps);
    PiecesScan(ps, [QUOTE]);
    ClosesHere("");
    PairedCloses(raw, "");
    assert [QUOTE] + "" == [QUOTE];
    assert raw == raw + Over(false, BACKSLASH) && v == v + Over(false, QUOTE);
    assert Written(raw, v);
  }
}
