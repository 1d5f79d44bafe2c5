/** Parsing undoes printing. */
module JsonRoundTrip {
  import opened Basics
  import opened JsonText
  import opened JsonRender

  // ---- strings ----

  lemma ScanPlain(t: string)
    requires |t| > 1 && t[0] != QUOTE && t[0] != BACKSLASH
    ensures CloseQuote(t) == match CloseQuote(t[1..]) case None => None case Some(n) => Some(n + 1)
  {
  }

  /** e is one unescaped or escaped character c in front of whatever follows. */
  predicate Encodes(e: string, c: char, t: string) {
    && (CloseQuote(e + t) == match CloseQuote(t) case None => None case Some(n) => Some(|e| + n))
    && (forall n: nat | n < |t| :: Unescape(e + t, |e| + n) == Prepend([c], Unescape(t, n)))
  }

  lemma PlainEncodes(c: char, t: string)
    requires t != "" && c != QUOTE && c != BACKSLASH
    ensures Encodes([c], c, t)
  {
    var u := [c] + t;
    assert u[1..] == t;
    forall n: nat | n < |t|
      ensures Unescape(u, 1 + n) == Prepend([c], Unescape(t, n))
    {
    }
  }

  lemma ShortEncodes(letter: char, c: char, t: string)
    requires t != "" && letter != 'u' && ShortEscape(letter) == Some(c)
    ensures Encodes([BACKSLASH, letter], c, t)
  {
    var u := [BACKSLASH, letter] + t;
    assert u[2..] == t;
    forall n: nat | n < |t|
      ensures Unescape(u, 2 + n) == Prepend([c], Unescape(t, n))
    {
      if n == 0 {
        assert Unescape(t, 0) == Some("");
        assert [c] + "" == [c];
      }
    }
  }

  lemma UnicodeHex(c: char)
    requires c < ' '
    ensures Hex4("00" + [LowerHex(c as int / 16 % 16), LowerHex(c as int % 16)]) == c as nat
  {
  }

  lemma UnicodeEncodes(h: string, c: char, t: string)
    requires t != "" && c < ' ' && |h| == 4 && Hex4(h) == c as nat
    requires forall i | 0 <= i < 4 :: h[i] != BACKSLASH && h[i] != QUOTE
    ensures Encodes("\\u" + h, c, t)
  {
    var u := "\\u" + h + t;
    assert u[2..6] == h && u[6..] == t;
    UnicodeScans(h, t);
    forall n: nat | n < |t|
      ensures Unescape(u, 6 + n) == Prepend([c], Unescape(t, n))
    {
      assert ReadLiteral(u, 6 + n) == Literal(c as nat, 6);
      assert Utf8(c as nat) == [c];
    }
  }

  lemma UnicodeScans(h: string, t: string)
    requires t != "" && |h| == 4
    requires forall i | 0 <= i < 4 :: h[i] != BACKSLASH && h[i] != QUOTE
    ensures CloseQuote("\\u" + h + t) == match CloseQuote(t) case None => None case Some(n) => Some(6 + n)
  {
    var u := "\\u" + h + t;
    assert u[2..][1..] == u[3..] && u[3..][1..] == u[4..] && u[4..][1..] == u[5..] && u[5..][1..] == t;
    assert forall i | 2 <= i < 6 :: u[i] == h[i - 2];
    ScanPlain(u[2..]);
    ScanPlain(u[3..]);
    ScanPlain(u[4..]);
    ScanPlain(u[5..]);
  }

  lemma EscapeCharEncodes(c: char, t: string)
    requires c != NUL && t != ""
    ensures Encodes(EscapeChar(c), c, t)
  {
    if c > '\U{1f}' && c != QUOTE && c != BACKSLASH {
      PlainEncodes(c, t);
    } else if EscapeLetter(c).Some? {
      ShortEncodes(EscapeLetter(c).value, c, t);
    } else {
      var h := "00" + [LowerHex(c as int / 16 % 16), LowerHex(c as int % 16)];
      UnicodeHex(c);
      UnicodeEncodes(h, c, t);
      assert EscapeChar(c) == "\\u" + h;
    }
  }

  /** A whole escaped string e standing for s in front of a closing quote. */
  predicate EncodesAll(e: string, s: string, t: string) {
    && |t| > 0
    && CloseQuote(e + t) == Some(|e|)
    && Unescape(e + t, |e|) == Some(s)
  }

  lemma ConsEncodes(e: string, c: char, es: string, s: string, t: string)
    requires EncodesAll(es, s, t) && Encodes(e, c, es + t)
    ensures EncodesAll(e + es, [c] + s, t)
  {
    hide Unescape, CloseQuote;
    assert e + (es + t) == (e + es) + t;
    var n := |es|;
    assert n < |es + t|;
    assert Unescape(e + (es + t), |e| + n) == Prepend([c], Unescape(es + t, n));
  }

  lemma {:induction false} EscapeScans(s: string, t: string)
    requires NulFree(s)
    requires t != "" && t[0] == QUOTE
    ensures EncodesAll(Escape(s), s, t)
  {
    if s == "" {
      assert Escape(s) + t == t;
    } else {
      EscapeScans(s[1..], t);
      EscapeCharEncodes(s[0], Escape(s[1..]) + t);
      ConsEncodes(EscapeChar(s[0]), s[0], Escape(s[1..]), s[1..], t);
      assert [s[0]] + s[1..] == s;
    }
  }

  /** Every NUL-free byte string is read back from its printed form. */
  lemma StringRoundTrip(s: string, rest: string)
    requires NulFree(s)
    ensures ParseString(Quoted(s) + rest) == Read(s, rest)
  {
    EscapeScans(s, [QUOTE] + rest);
    hide Escape, CloseQuote, Unescape;
    var t := Quoted(s) + rest;
    assert t[1..] == Escape(s) + ([QUOTE] + rest);
    assert t[|Escape(s)| + 2..] == rest;
  }

  // ---- values ----

  lemma NumberRoundTrip(token: string, rest: string)
    requires NumberToken(token)
    requires rest != "" && !IsNumeric(rest[0])
    ensures ParseNumber(token + rest) == Read(Number(token), rest)
  {
    var s := token + rest;
    var n := NumericRun(s, 63);
    assert forall i | 0 <= i < |token| :: s[i] == token[i];
    assert s[|token|] == rest[0];
    assert n == |token|;
    assert s[..n] == token && s[n..] == rest;
  }

  lemma {:induction false} SkipBlanks(blanks: string, t: string)
    requires forall i | 0 <= i < |blanks| :: blanks[i] <= ' '
    requires t != "" && t[0] > ' '
    ensures SkipWs(blanks + t) == t
  {
    if blanks == "" {
      assert blanks + t == t;
    } else {
      SkipBlanks(blanks[1..], t);
      assert (blanks + t)[1..] == blanks[1..] + t;
    }
  }

  lemma SkipNone(t: string)
    requires t != "" && t[0] > ' '
    ensures SkipWs(t) == t
  {
  }

  /** Printed values start with a character that is neither blank nor a closing one. */
  predicate Opens(s: string) {
    s != "" && s[0] > ' ' && s[0] != ']' && s[0] != '}' && s[0] != BOM[0]
  }

  lemma RenderOpens(v: Json, format: bool, depth: nat)
    requires Printable(v)
    ensures Opens(Render(v, format, depth))
  {
  }

  lemma ItemsOpen(items: seq<Json>, format: bool, depth: nat)
    requires items != [] && PrintableItems(items)
    ensures Opens(RenderItems(items, format, depth))
  {
    RenderOpens(items[0], format, depth);
  }

  /** What ParseValue must give for the text of v in front of rest. */
  function Expected<T>(v: T, nesting: nat, depth: nat, rest: string): Parsed<T> {
    if depth + nesting <= NESTING_LIMIT then Read(v, rest) else Fail
  }

  lemma WordRoundTrip(v: Json, rest: string, depth: nat)
    requires v.Null? || v.False? || v.True?
    ensures ParseValue(Render(v, false, 0) + rest, depth) == Read(v, rest)
  {
    var word := Render(v, false, 0);
    var s := word + rest;
    assert s[|word|..] == rest;
    assert s[0] == word[0];
    assert Begins(s, word);
  }

  lemma {:induction false} ValueRoundTrip(v: Json, format: bool, indent: nat, depth: nat, rest: string)
    requires Printable(v) && depth <= NESTING_LIMIT
    requires rest != "" && !IsNumeric(rest[0])
    ensures ParseValue(Render(v, format, indent) + rest, depth) == Expected(v, Nesting(v), depth, rest)
    decreases v, 3
  {
    hide ParseValue, ParseString, ParseNumber, RenderItems, RenderMembers, Escape;
    Dispatch(Render(v, format, indent) + rest, depth);
    match v
    case Null => WordRoundTrip(v, rest, depth);
    case False => WordRoundTrip(v, rest, depth);
    case True => WordRoundTrip(v, rest, depth);
    case Number(token) => NumberRoundTrip(token, rest);
    case Str(value) => StringRoundTrip(value, rest);
    case Array(items) => ArrayRoundTrip(items, format, indent, depth, rest);
    case Object(members) =>
      ObjectText(members, format, indent, rest);
      ObjectRoundTrip(members, format, indent, depth, rest);
  }

  lemma {:induction false} ArrayRoundTrip(items: seq<Json>, format: bool, indent: nat, depth: nat, rest: string)
    requires PrintableItems(items) && depth <= NESTING_LIMIT && rest != ""
    ensures ParseArray(Render(Array(items), format, indent) + rest, depth)
         == Expected(Array(items), Nesting(Array(items)), depth, rest)
    decreases items, 2
  {
    hide ParseItems, RenderItems, SkipWs, Render;
    var body := RenderItems(items, format, indent + 1) + ("]" + rest);
    var s := Render(Array(items), format, indent) + rest;
    ArrayText(items, format, indent, rest);
    assert s[1..] == body;
    if items == [] {
      NoItems(format, indent + 1);
      assert body == "]" + rest && body[1..] == rest;
      SkipNone(body);
    } else {
      ItemsOpen(items, format, indent + 1);
      SkipNone(body);
      if depth < NESTING_LIMIT {
        ItemsRoundTrip(items, format, indent + 1, depth + 1, rest);
      }
    }
  }

  lemma ArrayText(items: seq<Json>, format: bool, indent: nat, rest: string)
    ensures Render(Array(items), format, indent) + rest
         == "[" + (RenderItems(items, format, indent + 1) + ("]" + rest))
  {
    hide RenderItems;
    var inner := RenderItems(items, format, indent + 1);
    assert ("[" + inner + "]") + rest == "[" + (inner + ("]" + rest));
  }

  lemma NoItems(format: bool, indent: nat)
    ensures RenderItems([], format, indent) == ""
    ensures RenderMembers([], format, indent) == ""
  {
  }

  lemma {:induction false} ItemsRoundTrip(items: seq<Json>, format: bool, indent: nat, depth: nat, rest: string)
    requires items != [] && PrintableItems(items) && depth <= NESTING_LIMIT
    ensures ParseItems(RenderItems(items, format, indent) + ("]" + rest), depth)
         == Expected(items, NestingItems(items), depth, rest)
    decreases items, 1
  {
    hide ParseValue, ParseItems, SkipWs, Render, RenderItems;
    var first := Render(items[0], format, indent);
    var after := AfterItem(items, format, indent, rest);
    ItemsAsText(items, format, indent, rest);
    AfterItemSkips(items, format, indent, rest);
    ValueRoundTrip(items[0], format, indent, depth, after);
    if depth + Nesting(items[0]) > NESTING_LIMIT {
      ItemsFail(first + after, depth);
    } else {
      ItemsStep(first + after, items[0], after, depth);
      SkipNone(after);
      if |items| == 1 {
        assert items == [items[0]];
      } else {
        ItemsRoundTrip(items[1..], format, indent, depth, rest);
        assert [items[0]] + items[1..] == items;
      }
    }
  }

  /** What follows the text of the first element. */
  function AfterItem(items: seq<Json>, format: bool, indent: nat, rest: string): string
    requires items != []
  {
    if |items| == 1 then "]" + rest
    else "," + (When(format, " ") + (RenderItems(items[1..], format, indent) + ("]" + rest)))
  }

  lemma ItemsAsText(items: seq<Json>, format: bool, indent: nat, rest: string)
    requires items != []
    ensures RenderItems(items, format, indent) + ("]" + rest)
         == Render(items[0], format, indent) + AfterItem(items, format, indent, rest)
  {
    hide Render, When;
    if |items| > 1 {
      RegroupItem(Render(items[0], format, indent), When(format, " "),
                  RenderItems(items[1..], format, indent), "]" + rest);
    }
  }

  lemma RegroupItem(a: string, b: string, c: string, d: string)
    ensures (a + ("," + b) + c) + d == a + ("," + (b + (c + d)))
  {
  }

  /** Where the parser stands after the first element. */
  lemma AfterItemSkips(items: seq<Json>, format: bool, indent: nat, rest: string)
    requires items != [] && PrintableItems(items)
    ensures var after := AfterItem(items, format, indent, rest);
            && after != "" && after[0] == (if |items| == 1 then ']' else ',')
            && (if |items| == 1 then after[1..] == rest
                else SkipWs(after[1..]) == RenderItems(items[1..], format, indent) + ("]" + rest))
  {
    hide Render, SkipWs, RenderItems;
    var after := AfterItem(items, format, indent, rest);
    if |items| > 1 {
      var others := RenderItems(items[1..], format, indent) + ("]" + rest);
      ItemsOpen(items[1..], format, indent);
      SkipBlanks(When(format, " "), others);
      assert after[1..] == When(format, " ") + others;
    }
  }

  lemma ItemsFail(s: string, depth: nat)
    requires ParseValue(s, depth) == Fail
    ensures ParseItems(s, depth) == Fail
  {
    hide ParseValue;
  }

  /** The blanks in front of a closing brace. */
  ghost predicate Closes(tail: string, rest: string) {
    exists blanks: string ::
      tail == blanks + ("}" + rest) && forall i | 0 <= i < |blanks| :: blanks[i] <= ' '
  }

  lemma SkipToBrace(blanks: string, tail: string, rest: string)
    requires Closes(tail, rest)
    requires forall i | 0 <= i < |blanks| :: blanks[i] <= ' '
    ensures SkipWs(blanks + tail) == "}" + rest
  {
    var more: string :| tail == more + ("}" + rest) && forall i | 0 <= i < |more| :: more[i] <= ' ';
    assert blanks + tail == (blanks + more) + ("}" + rest);
    SkipBlanks(blanks + more, "}" + rest);
  }

  /** The text of the members from the first key on, followed by tail. */
  function MembersText(members: seq<Member>, format: bool, indent: nat, tail: string): (r: string)
    requires members != []
    ensures r != "" && r[0] == QUOTE
  {
    Quoted(members[0].key) + AfterKey(members, format, indent, tail)
  }

  function AfterKey(members: seq<Member>, format: bool, indent: nat, tail: string): string
    requires members != []
  {
    ":" + (When(format, "\t")
    + (Render(members[0].value, format, indent) + AfterValue(members, format, indent, tail)))
  }

  function AfterValue(members: seq<Member>, format: bool, indent: nat, tail: string): string
    requires members != []
  {
    MemberTail(|members| > 1, format) + (RenderMembers(members[1..], format, indent) + tail)
  }

  lemma MembersAsText(members: seq<Member>, format: bool, indent: nat, tail: string)
    requires members != []
    ensures RenderMembers(members, format, indent) + tail
         == Indent(format, indent) + MembersText(members, format, indent, tail)
  {
    hide Quoted, Render, Indent, When;
    var value := Render(members[0].value, format, indent);
    var others := RenderMembers(members[1..], format, indent);
    Regroup(Indent(format, indent), Quoted(members[0].key), ":", When(format, "\t"), value,
            MemberTail(|members| > 1, format), others, tail);
  }

  lemma Regroup(a: string, b: string, c: string, d: string, e: string, f: string, g: string, h: string)
    ensures ((((a + b + (c + d)) + e + f) + g) + h) == a + (b + (c + (d + (e + (f + (g + h))))))
  {
  }

  /** The text of an object behind its opening brace. */
  function ObjectBody(members: seq<Member>, format: bool, indent: nat, rest: string): string {
    When(format, "\n") + (RenderMembers(members, format, indent + 1) + (Indent(format, indent) + ("}" + rest)))
  }

  lemma ObjectText(members: seq<Member>, format: bool, indent: nat, rest: string)
    ensures Render(Object(members), format, indent) + rest == "{" + ObjectBody(members, format, indent, rest)
  {
    hide RenderMembers, Indent, When;
    var lead := When(format, "\n");
    var inner := RenderMembers(members, format, indent + 1);
    var blanks := Indent(format, indent);
    assert ("{" + lead) + inner + (blanks + "}") + rest == "{" + (lead + (inner + (blanks + ("}" + rest))));
  }

  /** Where the parser finds the first key, or the closing brace when there is none. */
  lemma ObjectBodyStart(members: seq<Member>, format: bool, indent: nat, rest: string)
    ensures var tail := Indent(format, indent) + ("}" + rest);
            && Closes(tail, rest)
            && SkipWs(ObjectBody(members, format, indent, rest)) ==
               if members == [] then "}" + rest else MembersText(members, format, indent + 1, tail)
  {
    hide RenderMembers, SkipWs, MembersText;
    var lead := When(format, "\n");
    var tail := Indent(format, indent) + ("}" + rest);
    var body := ObjectBody(members, format, indent, rest);
    if members == [] {
      NoItems(format, indent + 1);
      assert body == lead + tail;
      SkipToBrace(lead, tail, rest);
    } else {
      var blanks := Indent(format, indent + 1);
      var keyed := MembersText(members, format, indent + 1, tail);
      MembersAsText(members, format, indent + 1, tail);
      assert body == (lead + blanks) + keyed;
      SkipBlanks(lead + blanks, keyed);
    }
  }

  lemma {:induction false} ObjectRoundTrip(members: seq<Member>, format: bool, indent: nat, depth: nat, rest: string)
    requires PrintableMembers(members) && depth <= NESTING_LIMIT && rest != ""
    ensures ParseObject(Render(Object(members), format, indent) + rest, depth)
         == Expected(Object(members), Nesting(Object(members)), depth, rest)
    decreases members, 2
  {
    hide ParseMembers, SkipWs, MembersText, ObjectBody, Render, Indent, Closes;
    var body := ObjectBody(members, format, indent, rest);
    var s := Render(Object(members), format, indent) + rest;
    ObjectText(members, format, indent, rest);
    assert s[1..] == body;
    ObjectBodyStart(members, format, indent, rest);
    if members == [] {
      assert ("}" + rest)[1..] == rest;
    } else if depth < NESTING_LIMIT {
      MembersRoundTrip(members, format, indent + 1, depth + 1, Indent(format, indent) + ("}" + rest), rest);
    }
  }

  lemma {:induction false} MemberRoundTrip(m: Member, format: bool, indent: nat, depth: nat, after: string)
    requires NulFree(m.key) && Printable(m.value) && depth <= NESTING_LIMIT
    requires after != "" && !IsNumeric(after[0])
    ensures ParseMember(Quoted(m.key) + (":" + (When(format, "\t") + (Render(m.value, format, indent) + after))), depth)
         == Expected(m, Nesting(m.value), depth, after)
    decreases m, 4
  {
    hide ParseValue, ParseString, SkipWs, Quoted, Render;
    var gap := When(format, "\t");
    var value := Render(m.value, format, indent) + after;
    var colon := ":" + (gap + value);
    StringRoundTrip(m.key, colon);
    SkipNone(colon);
    RenderOpens(m.value, format, indent);
    SkipBlanks(gap, value);
    assert colon[1..] == gap + value;
    ValueRoundTrip(m.value, format, indent, depth, after);
  }

  lemma MembersFail(s: string, depth: nat)
    requires ParseMember(s, depth) == Fail
    ensures ParseMembers(s, depth) == Fail
  {
    hide ParseMember;
  }

  lemma {:induction false} MembersRoundTrip(members: seq<Member>, format: bool, indent: nat, depth: nat,
                                            tail: string, rest: string)
    requires members != [] && PrintableMembers(members) && depth <= NESTING_LIMIT
    requires Closes(tail, rest)
    ensures ParseMembers(MembersText(members, format, indent, tail), depth)
         == Expected(members, NestingMembers(members), depth, rest)
    decreases members, 1
  {
    hide ParseMember, ParseMembers, SkipWs, Quoted, Render, RenderMembers, AfterValue;
    var m := members[0];
    var s := MembersText(members, format, indent, tail);
    var after := AfterValue(members, format, indent, tail);
    if |members| > 1 {
      MemberContinues(members, format, indent, tail);
    } else {
      LastMemberEnds(members, format, indent, tail, rest);
      assert members == [m] && ("}" + rest)[1..] == rest;
    }
    MemberRoundTrip(m, format, indent, depth, after);
    if depth + Nesting(m.value) > NESTING_LIMIT {
      MembersFail(s, depth);
    } else {
      MembersStep(s, m, after, depth);
      if |members| > 1 {
        MembersRoundTrip(members[1..], format, indent, depth, tail, rest);
        assert [m] + members[1..] == members;
      }
    }
  }

  /** Where the parser stands after the last member's value. */
  lemma LastMemberEnds(members: seq<Member>, format: bool, indent: nat, tail: string, rest: string)
    requires |members| == 1 && Closes(tail, rest)
    ensures var after := AfterValue(members, format, indent, tail);
            after != "" && !IsNumeric(after[0]) && SkipWs(after) == "}" + rest
  {
    hide SkipWs, RenderMembers;
    NoItems(format, indent);
    assert members[1..] == [];
    assert AfterValue(members, format, indent, tail) == When(format, "\n") + tail;
    SkipToBrace(When(format, "\n"), tail, rest);
  }

  /** Where the parser stands after the value of a member that has a successor. */
  lemma MemberContinues(members: seq<Member>, format: bool, indent: nat, tail: string)
    requires |members| > 1
    ensures var after := AfterValue(members, format, indent, tail);
            && after != "" && after[0] == ',' && SkipWs(after) == after
            && SkipWs(after[1..]) == MembersText(members[1..], format, indent, tail)
  {
    hide SkipWs, MembersText, RenderMembers;
    var lead := When(format, "\n");
    var after := AfterValue(members, format, indent, tail);
    var keyed := MembersText(members[1..], format, indent, tail);
    var blanks := Indent(format, indent);
    MembersAsText(members[1..], format, indent, tail);
    assert after[1..] == (lead + blanks) + keyed;
    SkipNone(after);
    SkipBlanks(lead + blanks, keyed);
  }

  /** Printing and parsing back gives the same value exactly when it is not nested too
      deep; deeper values are rejected. */
  lemma RoundTrip(v: Json, format: bool)
    requires Printable(v)
    ensures ParseText(Render(v, format, 0)) == if Nesting(v) <= NESTING_LIMIT then Some(v) else None
  {
    var s := Render(v, format, 0) + [NUL];
    RenderOpens(v, format, 0);
    assert SkipBom(s) == s && SkipWs(s) == s;
    ValueRoundTrip(v, format, 0, 0, [NUL]);
    assert SkipWs([NUL]) == [NUL];
  }
}
