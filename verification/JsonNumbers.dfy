/** The numbers of JSON (section 6 of RFC 8259) against the copy of numeric characters and the
    call of strtod that read them. */
module JsonNumbers {
  import opened Basics
  import opened JsonText
  import opened JsonRender

  predicate Figure(c: char) {
    c in ['0', '1', '2', '3', '4', '5', '6', '7', '8', '9']
  }

  predicate Figures(s: string) {
    forall i | 0 <= i < |s| :: Figure(s[i])
  }

  /** The e, sign and digits of an exponent. */
  datatype Exponent = Exponent(e: char, sign: string, digits: string)
  {
    predicate Valid() {
      && (e == 'e' || e == 'E') && (sign == "" || sign == "+" || sign == "-")
      && digits != "" && Figures(digits)
    }

    function Text(): string {
      [e] + sign + digits
    }
  }

  /** What strtod takes: a sign, digits with or without a point among, before or behind them,
      and an exponent. */
  datatype Decimal = Decimal(sign: string, whole: string, point: bool, frac: string, exp: Option<Exponent>)
  {
    predicate Valid() {
      && (sign == "" || sign == "+" || sign == "-") && Figures(whole) && Figures(frac)
      && whole + frac != "" && (frac != "" ==> point) && (exp.Some? ==> exp.value.Valid())
    }

    /** A token that begins as numbers do. */
    predicate Plain() {
      sign != "+" && (sign == "" ==> whole != "")
    }

    function Fraction(): string {
      if point then "." + frac else ""
    }

    function Power(): string {
      if exp.Some? then exp.value.Text() else ""
    }

    function Text(): string {
      sign + whole + Fraction() + Power()
    }
  }

  /** number = [ minus ] int [ frac ] [ exp ]; the others of section 6 are no numbers of JSON. */
  datatype Numeral = Numeral(minus: bool, whole: string, frac: Option<string>, exp: Option<Exponent>)
  {
    predicate Valid() {
      && whole != "" && Figures(whole) && (whole[0] == '0' ==> |whole| == 1)
      && (frac.Some? ==> frac.value != "" && Figures(frac.value))
      && (exp.Some? ==> exp.value.Valid())
    }

    function Text(): string {
      (if minus then "-" else "") + whole + (if frac.Some? then "." + frac.value else "")
      + (if exp.Some? then exp.value.Text() else "")
    }

    function AsDecimal(): Decimal {
      Decimal(if minus then "-" else "", whole, frac.Some?, if frac.Some? then frac.value else "", exp)
    }
  }

  lemma NumeralIsDecimal(n: Numeral)
    requires n.Valid()
    ensures n.AsDecimal().Valid() && n.AsDecimal().Text() == n.Text() && n.AsDecimal().Plain()
  {
  }

  /** Nothing that could go on a number. */
  predicate Ends(rest: string) {
    rest == "" || (!Figure(rest[0]) && rest[0] !in ['.', 'e', 'E', '+', '-'])
  }

  lemma FigureIsDigit(c: char)
    ensures Figure(c) <==> IsDigit(c)
  {
  }

  lemma {:induction false} DigitsOfFigures(d: string, x: string)
    requires Figures(d) && (x == "" || !Figure(x[0]))
    ensures Digits(d + x) == |d|
  {
    hide Figure;
    if d == "" {
      assert d + x == x;
      if x != "" {
        FigureIsDigit(x[0]);
      }
    } else {
      FigureIsDigit(d[0]);
      assert (d + x)[1..] == d[1..] + x;
      DigitsOfFigures(d[1..], x);
    }
  }

  lemma ExponentRead(e: Exponent)
    requires e.Valid()
    ensures ExponentLen(e.Text()) == |e.Text()|
  {
    hide Figure, Digits, ExponentLen;
    FigureIsDigit(e.digits[0]);
    DigitsOfFigures(e.digits, "");
    ExponentCuts(e.e, e.sign, e.digits);
    ExponentAdds(e.Text(), |e.sign|, |e.digits|);
  }

  lemma ExponentCuts(e: char, sign: string, digits: string)
    requires (sign == "" || sign == "+" || sign == "-") && digits != "" && digits[0] != '+' && digits[0] != '-'
    ensures var s := [e] + sign + digits;
            && s[1 + |sign|..] == digits && digits + "" == digits && s[0] == e
            && (s[1] == '+' || s[1] == '-' <==> |sign| == 1)
  {
    var s := [e] + sign + digits;
    assert s[1] == if sign == "" then digits[0] else sign[0];
  }

  lemma ExponentAdds(s: string, sign: nat, d: nat)
    requires |s| == 1 + sign + d && d > 0 && (s[0] == 'e' || s[0] == 'E') && sign <= 1
    requires (s[1] == '+' || s[1] == '-') <==> sign == 1
    requires Digits(s[1 + sign..]) == d
    ensures ExponentLen(s) == |s|
  {
    hide Digits;
  }

  lemma NoExponent()
    ensures ExponentLen("") == 0
  {
  }

  /** Where the digits of the parts end. */
  lemma PartsEnd(d: Decimal)
    requires d.Valid()
    ensures Digits(d.whole + (d.Fraction() + d.Power())) == |d.whole|
    ensures d.whole != "" ==> d.whole[0] != '-' && d.whole[0] != '+'
    ensures d.Power() == "" || (d.Power()[0] != '.' && !Figure(d.Power()[0]))
    ensures d.point ==> Digits(d.frac + d.Power()) == |d.frac|
    ensures ExponentLen(d.Power()) == |d.Power()|
  {
    hide Digits, ExponentLen, Figure;
    if d.exp.Some? {
      ExponentRead(d.exp.value);
      ExponentBegins(d.exp.value);
    } else {
      NoExponent();
    }
    if d.point {
      DigitsOfFigures(d.frac, d.Power());
      assert (d.Fraction() + d.Power())[0] == '.';
      NoFigure('.');
    } else {
      assert d.Fraction() + d.Power() == d.Power();
    }
    NoFigure('-');
    NoFigure('+');
    DigitsOfFigures(d.whole, d.Fraction() + d.Power());
  }

  lemma NoFigure(c: char)
    requires c in ['.', '-', '+', 'e', 'E']
    ensures !Figure(c)
  {
  }

  lemma ExponentBegins(e: Exponent)
    requires e.Valid()
    ensures e.Text() != "" && e.Text()[0] in ['e', 'E'] && !Figure(e.Text()[0]) && e.Text()[0] != '.'
  {
  }

  /** strtod takes the whole of it. */
  lemma StrtodTakesAll(d: Decimal)
    requires d.Valid()
    ensures StrtodLen(d.Text()) == |d.Text()|
  {
    hide Digits, ExponentLen, Figure, Figures, StrtodLen, Exponent.Valid, Exponent.Text;
    PartsEnd(d);
    assert d.point ==> d.Fraction()[1..] == d.frac;
    Assembled(d.sign, d.whole, d.Fraction(), d.Power());
  }

  lemma Assembled(a: string, b: string, c: string, d: string)
    requires (a == "" || a == "-" || a == "+") && (b != "" ==> b[0] != '-' && b[0] != '+')
    requires Digits(b + (c + d)) == |b| && |b| + |c| > 1 - (if c == "" then 1 else 0)
    requires if c == "" then d == "" || d[0] != '.' else c[0] == '.' && Digits(c[1..] + d) == |c| - 1
    requires ExponentLen(d) == |d|
    ensures StrtodLen(a + b + c + d) == |a + b + c + d|
  {
    hide Digits, ExponentLen, StrtodLen;
    var s := a + b + c + d;
    Cuts(a, b, c, d);
    Fronts(a, b, c, d);
    HeadOf(c, d);
    if c + d != "" {
      Behind(s, |a| + |b|, c + d);
    }
    Joined(s, a, b, c, d);
  }

  lemma Joined(s: string, a: string, b: string, c: string, d: string)
    requires |s| == |a| + |b| + |c| + |d| && |b| + |c| > 1 - (if c == "" then 1 else 0)
    requires (a == "" || a == "-" || a == "+") && s[0] == if a != "" then a[0] else if b != "" then b[0] else c[0]
    requires (b != "" ==> b[0] != '-' && b[0] != '+')
    requires Digits(s[|a|..]) == |b| && ExponentLen(s[|a| + |b| + |c|..]) == |d|
    requires var point := |a| + |b|;
             if c == "" then point < |s| ==> s[point] != '.'
             else c[0] == '.' && s[point] == '.' && Digits(s[point + 1..]) == |c| - 1
    ensures StrtodLen(s) == |s|
  {
    hide Digits, ExponentLen, StrtodLen;
    StrtodParts(s, |a|, |b|, |c|, |d|);
  }

  lemma HeadOf(c: string, d: string)
    ensures c == "" ==> c + d == d
    ensures c != "" ==> (c + d)[0] == c[0] && (c + d)[1..] == c[1..] + d
  {
  }

  lemma Cuts(a: string, b: string, c: string, d: string)
    ensures var s := a + b + c + d;
            s[|a|..] == b + (c + d) && s[|a| + |b|..] == c + d && s[|a| + |b| + |c|..] == d
  {
    var s := a + b + c + d;
    assert s == a + (b + (c + d));
    assert s[|a| + |b|..] == c + d;
  }

  lemma Fronts(a: string, b: string, c: string, d: string)
    requires a != "" || b != "" || c != ""
    ensures (a + b + c + d)[0] == if a != "" then a[0] else if b != "" then b[0] else c[0]
  {
  }

  lemma Behind(s: string, n: nat, x: string)
    requires n <= |s| && s[n..] == x && x != ""
    ensures n < |s| && s[n] == x[0] && s[n + 1..] == x[1..]
  {
    assert s[n + 1..] == s[n..][1..];
  }

  /** How the parts of a number add up. */
  lemma StrtodParts(s: string, sign: nat, whole: nat, frac: nat, exp: nat)
    requires sign <= 1 && sign + whole + frac + exp == |s| && (whole > 0 || frac > 1)
    requires sign == if s[0] == '+' || s[0] == '-' then 1 else 0
    requires Digits(s[sign..]) == whole
    requires var point := sign + whole;
             if point < |s| && s[point] == '.' then frac == 1 + Digits(s[point + 1..]) else frac == 0
    requires ExponentLen(s[sign + whole + frac..]) == exp
    ensures StrtodLen(s) == |s|
  {
    hide Digits, ExponentLen;
  }

  lemma EndsNumeric(rest: string)
    requires Ends(rest)
    ensures rest == "" || !IsNumeric(rest[0])
  {
  }

  lemma {:induction false} NumericRunOf(s: string, rest: string, max: nat)
    requires (forall i | 0 <= i < |s| :: IsNumeric(s[i])) && |s| <= max && Ends(rest)
    ensures NumericRun(s + rest, max) == |s|
  {
    hide IsNumeric;
    if s == "" {
      assert s + rest == rest;
      EndsNumeric(rest);
    } else {
      assert (s + rest)[1..] == s[1..] + rest;
      NumericRunOf(s[1..], rest, max - 1);
    }
  }

  lemma DecimalIsNumeric(d: Decimal)
    requires d.Valid()
    ensures forall i | 0 <= i < |d.Text()| :: IsNumeric(d.Text()[i])
    ensures d.Text() != "" && (d.Plain() ==> d.Text()[0] == '-' || IsDigit(d.Text()[0]))
  {
    hide Figure;
    FiguresNumeric(d.whole);
    FiguresNumeric(d.frac);
    if d.exp.Some? {
      FiguresNumeric(d.exp.value.digits);
    }
    if d.whole != "" {
      FigureIsDigit(d.whole[0]);
    }
  }

  lemma FiguresNumeric(s: string)
    requires Figures(s)
    ensures forall i | 0 <= i < |s| :: IsNumeric(s[i])
  {
  }

  /** Such a token of at most 63 characters is read whole, whatever follows that cannot go on
      it. */
  lemma DecimalReads(d: Decimal, rest: string, depth: nat)
    requires d.Valid() && d.Plain() && |d.Text()| <= 63 && Ends(rest)
    ensures ParseNumber(d.Text() + rest) == Read(Number(d.Text()), rest)
    ensures ParseValue(d.Text() + rest, depth) == Read(Number(d.Text()), rest)
  {
    hide StrtodLen, IsNumeric, IsDigit, Decimal.Plain, Decimal.Text;
    var t := d.Text();
    var s := t + rest;
    DecimalIsNumeric(d);
    NumericRunOf(t, rest, 63);
    StrtodTakesAll(d);
    assert s[..|t|] == t && s[|t|..] == rest;
    assert s[0] == t[0];
    Dispatch(s, depth);
    assert |t| > 0;
  }

  /** So every number of the grammar is read whole, as that token, */
  lemma NumeralReads(n: Numeral, rest: string, depth: nat)
    requires n.Valid() && |n.Text()| <= 63 && Ends(rest)
    ensures ParseNumber(n.Text() + rest) == Read(Number(n.Text()), rest)
    ensures ParseValue(n.Text() + rest, depth) == Read(Number(n.Text()), rest)
  {
    hide ParseValue, ParseNumber;
    NumeralIsDecimal(n);
    DecimalReads(n.AsDecimal(), rest, depth);
  }

  /** and one of at most 25 characters is one that printing gives back. */
  lemma NumeralPrints(n: Numeral)
    requires n.Valid() && |n.Text()| <= 25
    ensures NumberToken(n.Text()) && Printable(Number(n.Text()))
  {
    hide StrtodLen;
    NumeralIsDecimal(n);
    DecimalIsNumeric(n.AsDecimal());
    StrtodTakesAll(n.AsDecimal());
  }

  // ---- what else is read ----

  lemma {:induction false} DigitsAreFigures(s: string)
    ensures Figures(s[..Digits(s)])
  {
    if s != "" && IsDigit(s[0]) {
      DigitsAreFigures(s[1..]);
      FigureIsDigit(s[0]);
      var n := Digits(s[1..]);
      assert s[..1 + n] == [s[0]] + s[1..][..n];
    }
  }

  lemma CutTwice(s: string, a: nat, b: nat)
    requires a + b <= |s|
    ensures s[..a] + s[a..][..b] == s[..a + b]
  {
  }

  lemma ExponentShape(s: string) returns (e: Option<Exponent>)
    ensures e.Some? ==> e.value.Valid()
    ensures s[..ExponentLen(s)] == if e.Some? then e.value.Text() else ""
  {
    if ExponentLen(s) == 0 {
      return None;
    }
    var sign := if |s| > 1 && (s[1] == '+' || s[1] == '-') then 1 else 0;
    var digits := s[1 + sign..];
    var d := Digits(digits);
    DigitsAreFigures(digits);
    hide Figure, Figures, Digits;
    var x := Exponent(s[0], s[1..1 + sign], digits[..d]);
    assert [s[0]] + s[1..1 + sign] == s[..1 + sign];
    CutTwice(s, 1 + sign, d);
    assert x.Text() == s[..1 + sign + d];
    assert sign == 1 ==> s[1..2] == [s[1]];
    e := Some(x);
  }

  /** The parts that strtod finds. */
  lemma StrtodFinds(s: string) returns (sign: nat, whole: nat, dot: nat, frac: nat)
    requires StrtodLen(s) > 0
    ensures sign <= 1 && dot <= 1 && sign + whole + dot + frac <= |s| && whole + frac > 0
    ensures sign == 1 ==> s != "" && (s[0] == '+' || s[0] == '-')
    ensures whole == Digits(s[sign..])
    ensures dot == 1 ==> s[sign + whole] == '.' && frac == Digits(s[sign + whole + 1..])
    ensures dot == 0 ==> frac == 0
    ensures StrtodLen(s) == sign + whole + dot + frac + ExponentLen(s[sign + whole + dot + frac..])
  {
    hide Digits, ExponentLen;
    sign := if s != "" && (s[0] == '+' || s[0] == '-') then 1 else 0;
    whole := Digits(s[sign..]);
    dot := if sign + whole < |s| && s[sign + whole] == '.' then 1 else 0;
    frac := if dot == 1 then Digits(s[sign + whole + 1..]) else 0;
  }

  lemma StrtodShape(s: string) returns (d: Decimal)
    requires StrtodLen(s) > 0
    ensures d.Valid() && d.Text() == s[..StrtodLen(s)]
  {
    hide Figure, Figures, Digits, ExponentLen, StrtodLen, Exponent.Valid, Exponent.Text;
    var sign, whole, dot, frac := StrtodFinds(s);
    var point := sign + whole;
    var exp := point + dot + frac;
    DigitsAreFigures(s[sign..]);
    NoFigures();
    var fraction := "";
    if dot == 1 {
      DigitsAreFigures(s[point + 1..]);
      fraction := s[point + 1..][..frac];
    }
    var e := ExponentShape(s[exp..]);
    d := Decimal(s[..sign], s[sign..][..whole], dot == 1, fraction, e);
    SignShape(s, sign);
    PartsJoin(s, sign, whole, dot, frac, ExponentLen(s[exp..]), d.Fraction(), d.Power());
  }

  lemma SignShape(s: string, sign: nat)
    requires sign <= 1 && (sign == 1 ==> s != "" && (s[0] == '+' || s[0] == '-'))
    ensures sign <= |s| && (s[..sign] == "" || s[..sign] == "+" || s[..sign] == "-")
  {
  }

  lemma PartsJoin(s: string, sign: nat, whole: nat, dot: nat, frac: nat, n: nat, fraction: string, power: string)
    requires sign + whole + dot + frac + n <= |s| && dot <= 1 && (dot == 0 ==> frac == 0)
    requires dot == 1 ==> s[sign + whole] == '.' && fraction == "." + s[sign + whole + 1..][..frac]
    requires dot == 0 ==> fraction == ""
    requires power == s[sign + whole + dot + frac..][..n]
    ensures s[..sign] + s[sign..][..whole] + fraction + power == s[..sign + whole + dot + frac + n]
  {
    CutTwice(s, sign, whole);
    CutTwice(s, sign + whole, dot + frac);
    assert s[sign + whole..][..dot + frac] == fraction;
    CutTwice(s, sign + whole + dot + frac, n);
  }

  lemma NoFigures()
    ensures Figures("")
  {
  }

  /** So a text is read as a number only when it begins with one of these. */
  lemma NumberShape(s: string) returns (d: Decimal)
    requires ParseNumber(s).Read?
    ensures d.Valid() && d.Text() <= s && |d.Text()| <= 63
    ensures ParseNumber(s) == Read(Number(d.Text()), s[|d.Text()|..])
  {
    hide StrtodLen;
    var run := s[..NumericRun(s, 63)];
    d := StrtodShape(run);
    assert run[..StrtodLen(run)] == s[..StrtodLen(run)];
  }
}
