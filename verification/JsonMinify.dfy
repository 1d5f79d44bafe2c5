/** cJSON_Minify: blanks and comments leave, string literals stay. */
module JsonMinify {
  import opened Basics
  import opened JsonText

  /** Blanks that Minify removes; the parser skips every control character. */
  predicate IsRemoved(c: char) { c == ' ' || c == '\t' || c == '\r' || c == '\n' }

  /** Index behind a line comment: its line feed, or the terminator. */
  function AfterLine(s: string): (k: nat)
    ensures k <= |s|
  {
    if s == "" || s[0] == NUL || s[0] == '\n' then 0 else 1 + AfterLine(s[1..])
  }

  /** Index behind the first star-slash pair, or None when the text ends before. */
  function AfterBlock(s: string): (k: Option<nat>)
    ensures k.Some? ==> 2 <= k.value <= |s|
  {
    if |s| < 2 || s[0] == NUL then None
    else if s[0] == '*' && s[1] == '/' then Some(2)
    else match AfterBlock(s[1..]) case None => None case Some(k) => Some(k + 1)
  }

  /** The minified form of a terminated text.  None when an unclosed string or comment
      carries the reader past the terminator. */
  function Minify(s: string): (r: Option<string>)
    ensures r.Some? ==> 0 < |r.value| <= |s|
    decreases |s|
  {
    if s == "" then None
    else if s[0] == NUL then Some([NUL])
    else if IsRemoved(s[0]) then Minify(s[1..])
    else if s[0] == '/' && |s| > 1 && s[1] == '/' then Minify(s[1 + AfterLine(s[1..])..])
    else if s[0] == '/' && |s| > 1 && s[1] == '*' then
      (match AfterBlock(s[1..])
       case None => None
       case Some(k) => Minify(s[1 + k..]))
    else if s[0] == QUOTE then
      match CloseQuote(s[1..])
      case None => None
      case Some(n) => Prepend(s[..n + 2], Minify(s[n + 2..]))
    else Prepend([s[0]], Minify(s[1..]))
  }

  // ---- pieces of text that Minify copies ----

  predicate IsCopied(c: char) { c != NUL && !IsRemoved(c) && c != '/' && c != QUOTE }

  lemma {:induction false} CopiesPlain(word: string, s: string)
    requires forall i | 0 <= i < |word| :: IsCopied(word[i])
    ensures Minify(word + s) == Prepend(word, Minify(s))
  {
    if word == "" {
      assert word + s == s;
      assert Minify(s).Some? ==> "" + Minify(s).value == Minify(s).value;
    } else {
      CopiesPlain(word[1..], s);
      assert (word + s)[1..] == word[1..] + s;
      assert Minify(s).Some? ==> [word[0]] + (word[1..] + Minify(s).value) == word + Minify(s).value;
    }
  }

  /** The scan for a closing quote looks no further than the quote. */
  lemma {:induction false} CloseQuoteLocal(t: string, n: nat, x: string)
    requires CloseQuote(t) == Some(n)
    ensures CloseQuote(t[..n + 1] + x) == Some(n)
  {
    var u := t[..n + 1] + x;
    if t[0] != QUOTE {
      var step := if t[0] == BACKSLASH then 2 else 1;
      CloseQuoteLocal(t[step..], n - step, x);
      assert u[step..] == t[step..][..n - step + 1] + x;
    }
  }

  lemma LiteralLocal(t: string, n: nat, u: string)
    requires n < |t| && n < |u| && t[..n + 1] == u[..n + 1]
    ensures ReadLiteral(t, n) == ReadLiteral(u, n)
  {
    hide Hex4;
    assert forall i | 0 <= i <= n :: t[i] == t[..n + 1][i] == u[i];
    if n >= 6 {
      assert t[2..6] == u[2..6];
    }
    if n >= 12 {
      assert t[8..12] == u[8..12];
    }
  }

  lemma LocalTail(t: string, n: nat, u: string, step: nat)
    requires n < |t| && n < |u| && t[..n + 1] == u[..n + 1] && step <= n
    ensures t[step..][..n - step + 1] == u[step..][..n - step + 1]
  {
    assert t[step..][..n - step + 1] == t[..n + 1][step..];
    assert u[step..][..n - step + 1] == u[..n + 1][step..];
  }

  /** Unescaping looks no further than the closing quote. */
  lemma {:induction false} UnescapeLocal(t: string, n: nat, u: string)
    requires n < |t| && n < |u| && t[..n + 1] == u[..n + 1]
    ensures Unescape(t, n) == Unescape(u, n)
    decreases n
  {
    hide Utf8, ReadLiteral;
    assert forall i | 0 <= i <= n :: t[i] == t[..n + 1][i] == u[i];
    if n > 0 {
      var step := if t[0] != BACKSLASH then 1
                  else if t[1] != 'u' then 2
                  else match ReadLiteral(t, n) case BadLiteral => 0 case Literal(_, length) => length;
      LiteralLocal(t, n, u);
      if 0 < step <= n {
        LocalTail(t, n, u, step);
        UnescapeLocal(t[step..], n - step, u[step..]);
      }
    }
  }

  lemma StringCopies(s: string)
    requires ParseString(s).Read?
    requires Minify(ParseString(s).rest).Some?
    ensures var rest := ParseString(s).rest;
            var r := Minify(rest).value;
            Minify(s).Some? &&
            var m := Minify(s).value;
            m[0] == QUOTE && ParseString(m) == Read(ParseString(s).value, r)
            && (Minify(r) == Some(r) ==> Minify(m) == Some(m))
  {
    hide Unescape, CString;
    var n := CloseQuote(s[1..]).value;
    var literal := s[..n + 2];
    var rest := s[n + 2..];
    var r := Minify(rest).value;
    var m := literal + r;
    assert Minify(s) == Some(m);
    var inner := s[1..][..n + 1];
    assert m[1..] == inner + r;
    CloseQuoteLocal(s[1..], n, r);
    assert (inner + r)[..n + 1] == inner;
    UnescapeLocal(s[1..], n, m[1..]);
    assert m[n + 2..] == r && m[..n + 2] == literal;
  }

  // ---- what minifying does to the text between tokens ----

  lemma TerminatedTail(s: string, k: nat)
    requires Terminated(s) && k < |s|
    ensures Terminated(s[k..])
  {
  }

  /** Whether the parser finds something that ends a number behind blanks. */
  predicate Settled(s: string) {
    s != "" && !IsNumeric(SkipWs(s)[0])
  }

  /** y stands for the minified text of s, and x for that of s behind its blanks. */
  lemma {:induction false} SkipCommutes(s: string)
    requires Terminated(s) && SkipWs(s)[0] != '/' && Minify(SkipWs(s)).Some?
    ensures Minify(s).Some?
    ensures var x, y := Minify(SkipWs(s)).value, Minify(s).value;
            && SkipWs(y) == x && x[0] == SkipWs(s)[0]
            && (Minify(x) == Some(x) ==> Minify(y) == Some(y))
            && (Settled(s) ==> !IsNumeric(y[0]))
  {
    hide CloseQuote;
    if |s| > 1 && s[0] <= ' ' {
      TerminatedTail(s, 1);
      SkipCommutes(s[1..]);
      var y := Minify(s[1..]).value;
      if !IsRemoved(s[0]) {
        assert ([s[0]] + y)[1..] == y;
      }
    } else {
      var x := Minify(s).value;
      assert x[0] == s[0];
    }
  }

  lemma PunctuationCopies(s: string)
    requires s != "" && IsCopied(s[0]) && Minify(s[1..]).Some?
    ensures Minify(s) == Some([s[0]] + Minify(s[1..]).value)
    ensures var r := Minify(s[1..]).value;
            var m := [s[0]] + r;
            m[1..] == r && (Minify(r) == Some(r) ==> Minify(m) == Some(m))
  {
    var r := Minify(s[1..]).value;
    assert ([s[0]] + r)[1..] == r;
  }

  // ---- the parser's progress ----

  lemma StringEnds(s: string)
    requires Terminated(s) && ParseString(s).Read?
    ensures Terminated(ParseString(s).rest)
  {
    hide Unescape, CString;
    var n := CloseQuote(s[1..]).value;
    assert s[n + 1] == QUOTE;
    TerminatedTail(s, n + 2);
  }

  lemma NumberEnds(s: string)
    requires Terminated(s) && ParseNumber(s).Read?
    ensures Terminated(ParseNumber(s).rest)
  {
    hide StrtodLen;
    var n := StrtodLen(s[..NumericRun(s, 63)]);
    assert n > 0 ==> IsNumeric(s[n - 1]);
    TerminatedTail(s, n);
  }

  lemma {:induction false} SkipEnds(s: string)
    requires Terminated(s)
    ensures Terminated(SkipWs(s))
    ensures SkipWs(s)[0] <= ' ' ==> SkipWs(s) == [NUL]
  {
    if |s| > 1 && s[0] <= ' ' {
      TerminatedTail(s, 1);
      SkipEnds(s[1..]);
    }
  }

  /** Characters that can start a value. */
  predicate StartsValue(c: char) {
    c == 'n' || c == 'f' || c == 't' || c == QUOTE || c == '-' || IsDigit(c) || c == '[' || c == '{'
  }

  lemma ValueStarts(s: string, depth: nat)
    requires ParseValue(s, depth).Read?
    ensures s != "" && StartsValue(s[0])
  {
    hide ParseArray, ParseObject, ParseString, ParseNumber;
  }

  /** m is the minified text of s, and minifying it again changes nothing unless it
      changes the minified text r of what follows. */
  predicate Survives(s: string, m: string, r: string) {
    && s != "" && m != "" && m[0] == s[0]
    && Minify(s) == Some(m)
    && (Minify(r) == Some(r) ==> Minify(m) == Some(m))
  }

  lemma WordSurvives(word: string, rest: string)
    requires word != "" && forall i | 0 <= i < |word| :: IsCopied(word[i])
    requires Minify(rest).Some?
    ensures Survives(word + rest, word + Minify(rest).value, Minify(rest).value)
  {
    CopiesPlain(word, rest);
    CopiesPlain(word, Minify(rest).value);
  }

  lemma NumberSurvives(s: string)
    requires Terminated(s) && ParseNumber(s).Read? && StartsValue(s[0])
    requires Settled(ParseNumber(s).rest) && Minify(ParseNumber(s).rest).Some?
    requires !IsNumeric(ParseNumber(s).rest[0]) && !IsNumeric(Minify(ParseNumber(s).rest).value[0])
    ensures Minify(s).Some?
    ensures var Read(v, rest) := ParseNumber(s);
            var m, r := Minify(s).value, Minify(rest).value;
            Survives(s, m, r) && ParseNumber(m) == Read(v, r)
  {
    hide StrtodLen, SkipWs, Minify;
    var run := NumericRun(s, 63);
    var n := StrtodLen(s[..run]);
    var token := s[..n];
    var rest := s[n..];
    var r := Minify(rest).value;
    assert n == run;
    assert s == token + rest;
    assert forall i | 0 <= i < n :: IsNumeric(token[i]) && IsCopied(token[i]);
    WordSurvives(token, rest);
    var m := token + r;
    NumericRunOf(token, r);
    assert m[..n] == token && m[n..] == r;
  }

  lemma {:induction false} NumericRunOf(token: string, r: string)
    requires forall i | 0 <= i < |token| :: IsNumeric(token[i])
    requires |token| <= 63 && r != "" && !IsNumeric(r[0])
    ensures NumericRun(token + r, 63) == |token|
  {
    var m := token + r;
    var n := NumericRun(m, 63);
    assert forall i | 0 <= i < |token| :: m[i] == token[i];
    assert m[|token|] == r[0];
  }

  // ---- reading never consumes the terminator ----

  lemma WordEnds(s: string, word: string)
    requires Terminated(s) && Begins(s, word) && NulFree(word)
    ensures |word| < |s| && Terminated(s[|word|..])
  {
    if |word| > 0 {
      assert s[|word| - 1] == word[|word| - 1];
    }
    TerminatedTail(s, |word|);
  }

  lemma {:induction false} ValueEnds(s: string, depth: nat)
    requires Terminated(s) && ParseValue(s, depth).Read?
    ensures Terminated(ParseValue(s, depth).rest)
    decreases |s|, 1
  {
    hide ParseString, ParseNumber, Terminated;
    if Begins(s, "null") {
      WordEnds(s, "null");
    } else if Begins(s, "false") {
      WordEnds(s, "false");
    } else if Begins(s, "true") {
      WordEnds(s, "true");
    } else {
      Dispatch(s, depth);
      if s[0] == QUOTE {
        StringEnds(s);
      } else if s[0] == '[' {
        ArrayEnds(s, depth);
      } else if s[0] == '{' {
        ObjectEnds(s, depth);
      } else {
        NumberEnds(s);
      }
    }
  }

  lemma {:induction false} ArrayEnds(s: string, depth: nat)
    requires Terminated(s) && s[0] == '[' && ParseArray(s, depth).Read?
    ensures Terminated(ParseArray(s, depth).rest)
    decreases |s|, 0
  {
    hide ParseItems, SkipWs;
    TerminatedTail(s, 1);
    SkipEnds(s[1..]);
    var body := SkipWs(s[1..]);
    if body[0] == ']' {
      TerminatedTail(body, 1);
    } else {
      ItemsEnd(body, depth + 1);
    }
  }

  lemma {:induction false} ObjectEnds(s: string, depth: nat)
    requires Terminated(s) && s[0] == '{' && ParseObject(s, depth).Read?
    ensures Terminated(ParseObject(s, depth).rest)
    decreases |s|, 0
  {
    hide ParseMembers, SkipWs;
    TerminatedTail(s, 1);
    SkipEnds(s[1..]);
    var body := SkipWs(s[1..]);
    if body[0] == '}' {
      TerminatedTail(body, 1);
    } else {
      MembersEnd(body, depth + 1);
    }
  }

  /** What follows a separator, blanks skipped. */
  lemma NextEnds(after: string)
    requires Terminated(after) && SkipWs(after)[0] > ' '
    ensures Terminated(SkipWs(after)[1..]) && Terminated(SkipWs(SkipWs(after)[1..]))
  {
    SkipEnds(after);
    TerminatedTail(SkipWs(after), 1);
    SkipEnds(SkipWs(after)[1..]);
  }

  lemma {:induction false} ItemsEnd(s: string, depth: nat)
    requires Terminated(s) && ParseItems(s, depth).Read?
    ensures Terminated(ParseItems(s, depth).rest)
    decreases |s|, 2
  {
    hide ParseValue, SkipWs, Terminated;
    ValueEnds(s, depth);
    var after := ParseValue(s, depth).rest;
    NextEnds(after);
    if SkipWs(after)[0] == ',' {
      ItemsEnd(SkipWs(SkipWs(after)[1..]), depth);
    }
  }

  lemma {:induction false} MemberEnds(s: string, depth: nat)
    requires Terminated(s) && ParseMember(s, depth).Read?
    ensures Terminated(ParseMember(s, depth).rest)
    decreases |s|, 2
  {
    hide ParseValue, ParseString, SkipWs, Terminated;
    StringEnds(s);
    NextEnds(ParseString(s).rest);
    ValueEnds(SkipWs(SkipWs(ParseString(s).rest)[1..]), depth);
  }

  lemma {:induction false} MembersEnd(s: string, depth: nat)
    requires Terminated(s) && ParseMembers(s, depth).Read?
    ensures Terminated(ParseMembers(s, depth).rest)
    decreases |s|, 3
  {
    hide ParseMember, SkipWs, Terminated;
    MemberEnds(s, depth);
    var after := ParseMember(s, depth).rest;
    NextEnds(after);
    if SkipWs(after)[0] == ',' {
      MembersEnd(SkipWs(SkipWs(after)[1..]), depth);
    }
  }

  // ---- values ----

  /** A separator behind blanks: its minified text, and what the parser finds in it. */
  lemma SeparatorSurvives(after: string)
    requires Terminated(after) && IsCopied(SkipWs(after)[0])
    requires Minify(SkipWs(after)[1..]).Some?
    ensures Minify(after).Some?
    ensures var next, r, y := SkipWs(after), Minify(SkipWs(after)[1..]).value, Minify(after).value;
            && SkipWs(y) == [next[0]] + r && SkipWs(y)[1..] == r
            && (Minify(r) == Some(r) ==> Minify(y) == Some(y))
            && (Settled(after) ==> !IsNumeric(y[0]))
  {
    hide SkipWs, Minify;
    PunctuationCopies(SkipWs(after));
    SkipCommutes(after);
  }

  lemma {:induction false} ValueSurvives(s: string, depth: nat)
    requires Terminated(s) && ParseValue(s, depth).Read?
    requires Settled(ParseValue(s, depth).rest) && Minify(ParseValue(s, depth).rest).Some?
    requires !IsNumeric(Minify(ParseValue(s, depth).rest).value[0])
    ensures Minify(s).Some?
    ensures var Read(v, rest) := ParseValue(s, depth);
            var m, r := Minify(s).value, Minify(rest).value;
            Survives(s, m, r) && ParseValue(m, depth) == Read(v, r)
    decreases |s|, 1
  {
    hide Minify, SkipWs, Survives, ParseString, ParseNumber;
    var rest := ParseValue(s, depth).rest;
    var r := Minify(rest).value;
    if Begins(s, "null") {
      WordCarried(s, "null", rest);
    } else if Begins(s, "false") {
      WordCarried(s, "false", rest);
    } else if Begins(s, "true") {
      WordCarried(s, "true", rest);
    } else {
      Dispatch(s, depth);
      ValueStarts(s, depth);
      if s[0] == QUOTE {
        StringSurvives(s);
      } else if s[0] == '[' {
        ArraySurvives(s, depth);
      } else if s[0] == '{' {
        ObjectSurvives(s, depth);
      } else {
        SettledFirst(rest);
        NumberSurvives(s);
      }
      assert Survives(s, Minify(s).value, r);
      SurvivorStarts(s, Minify(s).value, r);
      Dispatch(Minify(s).value, depth);
    }
  }

  lemma SurvivorStarts(s: string, m: string, r: string)
    requires Survives(s, m, r)
    ensures m != "" && s != "" && m[0] == s[0]
  {
  }

  lemma SettledFirst(rest: string)
    requires Settled(rest)
    ensures !IsNumeric(rest[0])
  {
  }

  lemma StringSurvives(s: string)
    requires ParseString(s).Read? && Minify(ParseString(s).rest).Some?
    ensures Minify(s).Some?
    ensures var Read(v, rest) := ParseString(s);
            var m, r := Minify(s).value, Minify(rest).value;
            Survives(s, m, r) && ParseString(m) == Read(v, r)
  {
    hide Minify;
    StringCopies(s);
  }

  lemma {:induction false} ArraySurvives(s: string, depth: nat)
    requires Terminated(s) && s[0] == '[' && ParseArray(s, depth).Read?
    requires Minify(ParseArray(s, depth).rest).Some?
    ensures Minify(s).Some?
    ensures var Read(v, rest) := ParseArray(s, depth);
            var m, r := Minify(s).value, Minify(rest).value;
            Survives(s, m, r) && ParseArray(m, depth) == Read(v, r)
    decreases |s|, 0
  {
    hide Minify, SkipWs, ParseItems;
    var body := SkipWs(s[1..]);
    var r := Minify(ParseArray(s, depth).rest).value;
    TerminatedTail(s, 1);
    SkipEnds(s[1..]);
    if body[0] == ']' {
      PunctuationCopies(body);
    } else {
      ItemsStart(body, depth + 1);
      ItemsSurvive(body, depth + 1);
    }
    SkipCommutes(s[1..]);
    PunctuationCopies(s);
  }

  lemma {:induction false} ObjectSurvives(s: string, depth: nat)
    requires Terminated(s) && s[0] == '{' && ParseObject(s, depth).Read?
    requires Minify(ParseObject(s, depth).rest).Some?
    ensures Minify(s).Some?
    ensures var Read(v, rest) := ParseObject(s, depth);
            var m, r := Minify(s).value, Minify(rest).value;
            Survives(s, m, r) && ParseObject(m, depth) == Read(v, r)
    decreases |s|, 0
  {
    hide Minify, SkipWs, ParseMembers;
    var body := SkipWs(s[1..]);
    TerminatedTail(s, 1);
    SkipEnds(s[1..]);
    if body[0] == '}' {
      PunctuationCopies(body);
    } else {
      MembersStart(body, depth + 1);
      MembersSurvive(body, depth + 1);
    }
    SkipCommutes(s[1..]);
    PunctuationCopies(s);
  }

  lemma ItemsStart(s: string, depth: nat)
    requires ParseItems(s, depth).Read?
    ensures s != "" && StartsValue(s[0])
  {
    hide ParseValue;
    ValueStarts(s, depth);
  }

  lemma MembersStart(s: string, depth: nat)
    requires ParseMembers(s, depth).Read?
    ensures s != "" && s[0] == QUOTE
  {
    hide ParseValue;
  }

  lemma {:induction false} ItemsSurvive(s: string, depth: nat)
    requires Terminated(s) && ParseItems(s, depth).Read?
    requires Minify(ParseItems(s, depth).rest).Some?
    ensures Minify(s).Some?
    ensures var Read(items, rest) := ParseItems(s, depth);
            var m, r := Minify(s).value, Minify(rest).value;
            Survives(s, m, r) && ParseItems(m, depth) == Read(items, r)
    decreases |s|, 2
  {
    hide Minify, SkipWs, ParseValue, Terminated;
    var Read(item, after) := ParseValue(s, depth);
    var next := SkipWs(after);
    ItemsStep(s, item, after, depth);
    ValueEnds(s, depth);
    NextEnds(after);
    if next[0] == ',' {
      var tail := SkipWs(next[1..]);
      ItemsStart(tail, depth);
      ItemsSurvive(tail, depth);
      SkipCommutes(next[1..]);
    }
    SeparatorSurvives(after);
    ValueSurvives(s, depth);
    ItemsStep(Minify(s).value, item, Minify(after).value, depth);
  }

  lemma {:induction false} MemberSurvives(s: string, depth: nat)
    requires Terminated(s) && ParseMember(s, depth).Read?
    requires Settled(ParseMember(s, depth).rest) && Minify(ParseMember(s, depth).rest).Some?
    requires !IsNumeric(Minify(ParseMember(s, depth).rest).value[0])
    ensures Minify(s).Some?
    ensures var Read(member, rest) := ParseMember(s, depth);
            var m, r := Minify(s).value, Minify(rest).value;
            Survives(s, m, r) && ParseMember(m, depth) == Read(member, r)
    decreases |s|, 2
  {
    hide Minify, SkipWs, ParseValue, ParseString, Terminated, Settled;
    var Read(key, afterKey) := ParseString(s);
    var colon := SkipWs(afterKey);
    var value := SkipWs(colon[1..]);
    StringEnds(s);
    NextEnds(afterKey);
    ValueStarts(value, depth);
    ValueSurvives(value, depth);
    SkipCommutes(colon[1..]);
    SeparatorSurvives(afterKey);
    StringSurvives(s);
  }

  lemma {:induction false} MembersSurvive(s: string, depth: nat)
    requires Terminated(s) && ParseMembers(s, depth).Read?
    requires Minify(ParseMembers(s, depth).rest).Some?
    ensures Minify(s).Some?
    ensures var Read(members, rest) := ParseMembers(s, depth);
            var m, r := Minify(s).value, Minify(rest).value;
            Survives(s, m, r) && ParseMembers(m, depth) == Read(members, r)
    decreases |s|, 3
  {
    hide Minify, SkipWs, ParseMember, Terminated;
    var Read(member, after) := ParseMember(s, depth);
    var next := SkipWs(after);
    MembersStep(s, member, after, depth);
    MemberEnds(s, depth);
    NextEnds(after);
    if next[0] == ',' {
      var tail := SkipWs(next[1..]);
      MembersStart(tail, depth);
      MembersSurvive(tail, depth);
      SkipCommutes(next[1..]);
    }
    SeparatorSurvives(after);
    MemberSurvives(s, depth);
    MembersStep(Minify(s).value, member, Minify(after).value, depth);
  }

  lemma WordCarried(s: string, word: string, rest: string)
    requires Begins(s, word) && rest == s[|word|..] && Minify(rest).Some?
    requires word != "" && forall i | 0 <= i < |word| :: IsCopied(word[i])
    ensures Minify(s).Some? && Survives(s, Minify(s).value, Minify(rest).value)
    ensures Begins(Minify(s).value, word) && Minify(s).value[|word|..] == Minify(rest).value
  {
    hide Minify;
    assert s == word + rest;
    WordSurvives(word, rest);
  }

  // ---- whole texts ----

  lemma {:induction false} MinifyEnds(s: string)
    requires Terminated(s) && Minify(s).Some?
    ensures Terminated(Minify(s).value)
    decreases |s|
  {
    if s[0] == NUL {
    } else if IsRemoved(s[0]) {
      TerminatedTail(s, 1);
      MinifyEnds(s[1..]);
    } else if s[0] == '/' && |s| > 1 && s[1] == '/' {
      var k := 1 + AfterLine(s[1..]);
      if k < |s| {
        TerminatedTail(s, k);
        MinifyEnds(s[k..]);
      }
    } else if s[0] == '/' && |s| > 1 && s[1] == '*' {
      var k := 1 + AfterBlock(s[1..]).value;
      if k < |s| {
        TerminatedTail(s, k);
        MinifyEnds(s[k..]);
      }
    } else {
      var k := if s[0] == QUOTE then CloseQuote(s[1..]).value + 2 else 1;
      assert s[k..] != "";
      TerminatedTail(s, k);
      MinifyEnds(s[k..]);
      PrefixEnds(s[..k], Minify(s[k..]).value);
    }
  }

  lemma PrefixEnds(a: string, b: string)
    requires NulFree(a) && Terminated(b)
    ensures Terminated(a + b)
  {
  }

  /** The byte order mark is copied, and none can appear that was not there. */
  lemma BomStays(s: string)
    requires Terminated(s) && StartsValue(SkipWs(SkipBom(s))[0])
    requires Minify(SkipWs(SkipBom(s))).Some? && |Minify(SkipWs(SkipBom(s))).value| > 1
    ensures Minify(s).Some? && Minify(SkipBom(s)).Some?
    ensures var m, b := Minify(s).value, Minify(SkipBom(s)).value;
            SkipBom(m) == b && (Minify(b) == Some(b) ==> Minify(m) == Some(m))
  {
    hide Minify, SkipWs;
    BomEnds(s);
    SkipCommutes(SkipBom(s));
    var b := Minify(SkipBom(s)).value;
    if SkipBom(s) != s {
      assert s == BOM + s[3..];
      CopiesPlain(BOM, s[3..]);
      CopiesPlain(BOM, b);
      assert (BOM + b)[3..] == b;
    } else {
      NoBom(b);
    }
  }

  lemma NoBom(b: string)
    requires b != "" && StartsValue(SkipWs(b)[0])
    ensures SkipBom(b) == b
  {
  }

  lemma BomEnds(s: string)
    requires Terminated(s)
    ensures Terminated(SkipBom(s))
  {
  }

  /** A value in front of nothing but blanks. */
  lemma LastValueSurvives(start: string)
    requires Terminated(start) && ParseValue(start, 0).Read?
    requires var end := SkipWs(ParseValue(start, 0).rest); end != "" && end[0] == NUL
    ensures Minify(start).Some? && |Minify(start).value| > 1
    ensures var m := Minify(start).value;
            && ParseValue(m, 0).Read? && ParseValue(m, 0).value == ParseValue(start, 0).value
            && SkipWs(ParseValue(m, 0).rest) == [NUL]
            && Minify(m) == Some(m)
  {
    hide Minify, SkipWs, ParseValue;
    var rest := ParseValue(start, 0).rest;
    ValueEnds(start, 0);
    SkipEnds(rest);
    assert Minify([NUL]) == Some([NUL]) by { MinifyNothing(); }
    SkipCommutes(rest);
    ValueSurvives(start, 0);
    assert |ParseValue(Minify(start).value, 0).rest| < |Minify(start).value|;
  }

  lemma MinifyNothing()
    ensures Minify([NUL]) == Some([NUL])
  {
  }

  /** Minifying a text that parses keeps its value, and a second time changes nothing. */
  lemma MinifyKeepsMeaning(s: string)
    requires Terminated(s) && ParseTerminated(s).Some?
    ensures Minify(s).Some?
    ensures var m := Minify(s).value;
            Terminated(m) && ParseTerminated(m) == ParseTerminated(s) && Minify(m) == Some(m)
  {
    hide Minify, SkipWs, ParseValue, SkipBom, Terminated;
    var b := SkipBom(s);
    var start := SkipWs(b);
    BomEnds(s);
    SkipEnds(b);
    ValueStarts(start, 0);
    LastValueSurvives(start);
    SkipCommutes(b);
    BomStays(s);
    MinifyEnds(s);
  }

  /** The first character that Minify keeps. */
  function NextKept(s: string): char
    decreases |s|
  {
    if s == "" then NUL
    else if IsRemoved(s[0]) then NextKept(s[1..])
    else if s[0] == '/' && |s| > 1 && s[1] == '/' then NextKept(s[1 + AfterLine(s[1..])..])
    else if s[0] == '/' && |s| > 1 && s[1] == '*' then
      (match AfterBlock(s[1..])
       case None => NUL
       case Some(k) => NextKept(s[1 + k..]))
    else s[0]
  }

  /** No slash is kept in front of a kept slash or star, with which it would open a
      comment. */
  predicate NoJoin(s: string)
    decreases |s|
  {
    if s == "" || s[0] == NUL then true
    else if IsRemoved(s[0]) then NoJoin(s[1..])
    else if s[0] == '/' && |s| > 1 && s[1] == '/' then NoJoin(s[1 + AfterLine(s[1..])..])
    else if s[0] == '/' && |s| > 1 && s[1] == '*' then
      (match AfterBlock(s[1..])
       case None => true
       case Some(k) => NoJoin(s[1 + k..]))
    else if s[0] == QUOTE then
      match CloseQuote(s[1..])
      case None => true
      case Some(n) => NoJoin(s[n + 2..])
    else
      NoJoin(s[1..]) && !(s[0] == '/' && (NextKept(s[1..]) == '/' || NextKept(s[1..]) == '*'))
  }

  lemma {:induction false} MinifyStarts(s: string)
    requires Minify(s).Some?
    ensures Minify(s).value[0] == NextKept(s)
    decreases |s|
  {
    hide CloseQuote;
    if s[0] == NUL {
    } else if IsRemoved(s[0]) {
      MinifyStarts(s[1..]);
    } else if s[0] == '/' && |s| > 1 && s[1] == '/' {
      MinifyStarts(s[1 + AfterLine(s[1..])..]);
    } else if s[0] == '/' && |s| > 1 && s[1] == '*' {
      MinifyStarts(s[1 + AfterBlock(s[1..]).value..]);
    }
  }

  /** Minifying a kept character in front of minified text. */
  lemma KeptAgain(c: char, r: string)
    requires c != NUL && c != QUOTE && !IsRemoved(c) && r != ""
    ensures Minify([c] + r) == Some([c] + r) <==> Minify(r) == Some(r) && !(c == '/' && (r[0] == '/' || r[0] == '*'))
  {
    hide AfterBlock, AfterLine, CloseQuote;
    var m := [c] + r;
    assert m[1..] == r;
    if c == '/' && r[0] == '/' {
      Shortened(m, 1 + AfterLine(r));
    } else if c == '/' && r[0] == '*' {
      if AfterBlock(r).Some? {
        Shortened(m, 1 + AfterBlock(r).value);
      }
    } else {
      SamePrefix([c], r);
    }
  }

  lemma Shortened(m: string, k: nat)
    requires 0 < k <= |m|
    ensures Minify(m[k..]) != Some(m)
  {
    hide Minify;
  }

  lemma SamePrefix(a: string, r: string)
    ensures Prepend(a, Minify(r)) == Some(a + r) <==> Minify(r) == Some(r)
  {
    hide Minify;
    if Minify(r).Some? && a + Minify(r).value == a + r {
      assert Minify(r).value == (a + Minify(r).value)[|a|..] == (a + r)[|a|..] == r;
    }
  }

  lemma LiteralAgain(s: string, n: nat, r: string)
    requires s != "" && s[0] == QUOTE && CloseQuote(s[1..]) == Some(n)
    ensures Minify(s[..n + 2] + r) == Some(s[..n + 2] + r) <==> Minify(r) == Some(r)
  {
    var a := s[..n + 2];
    CloseQuoteLocal(s[1..], n, r);
    assert (a + r)[1..] == s[1..][..n + 1] + r;
    assert (a + r)[..n + 2] == a && (a + r)[n + 2..] == r;
    QuoteHead(a + r);
    SamePrefix(a, r);
  }

  /** When a second call changes nothing: exactly when the first joins no comment. */
  lemma {:induction false} MinifyTwice(s: string)
    requires Minify(s).Some?
    ensures Minify(Minify(s).value) == Minify(s) <==> NoJoin(s)
    decreases |s|
  {
    hide CloseQuote, AfterBlock, AfterLine, NextKept;
    if s[0] == NUL {
      MinifyNothing();
    } else if IsRemoved(s[0]) {
      MinifyTwice(s[1..]);
    } else if s[0] == '/' && |s| > 1 && s[1] == '/' {
      MinifyTwice(s[1 + AfterLine(s[1..])..]);
    } else if s[0] == '/' && |s| > 1 && s[1] == '*' {
      MinifyTwice(s[1 + AfterBlock(s[1..]).value..]);
    } else if s[0] == QUOTE {
      var n := CloseQuote(s[1..]).value;
      MinifyTwice(s[n + 2..]);
      LiteralAgain(s, n, Minify(s[n + 2..]).value);
    } else {
      MinifyTwice(s[1..]);
      MinifyStarts(s[1..]);
      KeptAgain(s[0], Minify(s[1..]).value);
    }
  }

  /** A text that parses joins none. */
  lemma ParsedJoinsNone(s: string)
    requires Terminated(s) && ParseTerminated(s).Some?
    ensures NoJoin(s)
  {
    hide Minify, NoJoin;
    MinifyKeepsMeaning(s);
    MinifyTwice(s);
  }

  /** A text that does not: removing the blank creates a comment. */
  lemma MinifyTwiceDiffers()
    ensures Minify("/ /" + [NUL]) == Some("//" + [NUL])
    ensures Minify("//" + [NUL]) == Some([NUL])
    ensures !NoJoin("/ /" + [NUL])
  {
    var s := "/ /" + [NUL];
    assert s[1..] == " /" + [NUL] && s[1..][1..] == "/" + [NUL] && s[1..][1..][1..] == [NUL];
    assert Minify("/" + [NUL]) == Some("/" + [NUL]) by { assert ("/" + [NUL])[1..] == [NUL]; }
    assert Minify(" /" + [NUL]) == Minify("/" + [NUL]) by { assert (" /" + [NUL])[1..] == "/" + [NUL]; }
    var t := "//" + [NUL];
    assert ['/'] + ("/" + [NUL]) == t;
    assert t[1..] == "/" + [NUL] && t[1..][1..] == [NUL];
    assert AfterLine(t[1..]) == 1;
    assert t[2..] == [NUL];
    MinifyTwice(s);
  }

  // ---- texts that keep the reader in front of their terminator ----

  /** Where a scan from left to right stands, one character at a time. */
  datatype Place = Code | Slash | Line | Block | Star | InString | InEscape

  function Turn(p: Place, c: char): Place {
    match p
    case Code => if c == '/' then Slash else if c == QUOTE then InString else Code
    case Slash => if c == '/' then Line else if c == '*' then Star else if c == QUOTE then InString else Code
    case Line => if c == '\n' then Code else Line
    case Block => if c == '*' then Star else Block
    case Star => if c == '/' then Code else if c == '*' then Star else Block
    case InString => if c == QUOTE then Code else if c == BACKSLASH then InEscape else InString
    case InEscape => InString
  }

  /** The scan from p on meets the terminator outside strings and block comments. */
  predicate Closed(p: Place, s: string)
    decreases |s|
  {
    if s == "" || s[0] == NUL then p.Code? || p.Slash? || p.Line? else Closed(Turn(p, s[0]), s[1..])
  }

  lemma {:induction false} LineCloses(t: string)
    requires Terminated(t)
    ensures AfterLine(t) < |t|
    ensures Closed(Line, t) <==> Closed(Code, t[AfterLine(t)..])
  {
    if t[0] != NUL && t[0] != '\n' {
      TerminatedTail(t, 1);
      LineCloses(t[1..]);
      assert t[1..][AfterLine(t[1..])..] == t[AfterLine(t)..];
    }
  }

  /** Behind a star the scan stands as it would in front of it, unless a slash follows. */
  lemma {:induction false} BlockCloses(t: string)
    requires Terminated(t)
    ensures AfterBlock(t).Some? ==> AfterBlock(t).value < |t|
    ensures Closed(Block, t) <==> AfterBlock(t).Some? && Closed(Code, t[AfterBlock(t).value..])
  {
    if t[0] != NUL {
      var u := t[1..];
      TerminatedTail(t, 1);
      if t[0] == '*' && u[0] == '/' {
        assert u[1..] == t[2..];
      } else {
        BlockCloses(u);
        assert Closed(Block, u) == Closed(Turn(Block, t[0]), u);
        if AfterBlock(u).Some? {
          assert u[AfterBlock(u).value..] == t[AfterBlock(t).value..];
        }
      }
    }
  }

  lemma {:induction false} QuoteCloses(t: string)
    requires Terminated(t)
    ensures CloseQuote(t).Some? ==> CloseQuote(t).value + 1 < |t|
    ensures Closed(InString, t) <==> CloseQuote(t).Some? && Closed(Code, t[CloseQuote(t).value + 1..])
    decreases |t|
  {
    hide Closed, CloseQuote, Terminated;
    TerminatedShape(t);
    if t[0] == NUL || t[0] == QUOTE {
      QuoteStops(t);
    } else {
      var step := if t[0] == BACKSLASH then 2 else 1;
      var u := t[step..];
      QuoteGoesOn(t, step);
      if u != "" {
        TailStops(t, step);
        QuoteCloses(u);
        if CloseQuote(u).Some? {
          assert u[CloseQuote(u).value + 1..] == t[CloseQuote(t).value + 1..];
        }
      }
    }
  }

  lemma QuoteStops(t: string)
    requires Terminated(t) && (t[0] == NUL || t[0] == QUOTE)
    ensures t[0] == NUL ==> CloseQuote(t) == None && !Closed(InString, t)
    ensures t[0] == QUOTE ==> CloseQuote(t) == Some(0) && 1 < |t| && Closed(InString, t) == Closed(Code, t[1..])
  {
    if t[0] == NUL {
      assert t[1..] == "";
    }
  }

  lemma QuoteGoesOn(t: string, step: nat)
    requires Terminated(t) && t[0] != NUL && t[0] != QUOTE && step == (if t[0] == BACKSLASH then 2 else 1)
    ensures step <= |t|
    ensures CloseQuote(t) == match CloseQuote(t[step..]) case None => None case Some(n) => Some(n + step)
    ensures t[step..] == "" ==> CloseQuote(t) == None && !Closed(InString, t)
    ensures t[step..] != "" ==> Closed(InString, t) == Closed(InString, t[step..])
  {
    if step == 2 {
      var u := t[1..];
      assert u[1..] == t[2..];
      assert Closed(InString, t) == Closed(InEscape, u);
    }
  }

  lemma SlashTurn(s: string)
    requires |s| > 1 && s[0] == '/'
    ensures s[1] == '/' ==> Closed(Code, s) == Closed(Line, s[1..])
    ensures s[1] == '*' ==> Closed(Code, s) == Closed(Block, s[1..])
    ensures s[1] != '/' && s[1] != '*' ==> Closed(Code, s) == Closed(Code, s[1..])
  {
    assert Closed(Code, s) == Closed(Slash, s[1..]);
  }

  lemma PlainTurn(s: string)
    requires s != "" && s[0] != NUL && s[0] != '/' && s[0] != QUOTE
    ensures Closed(Code, s) == Closed(Code, s[1..])
  {
  }

  lemma QuoteTurn(s: string)
    requires s != "" && s[0] == QUOTE
    ensures Closed(Code, s) == Closed(InString, s[1..])
  {
  }

  /** The reader stays in front of the terminator exactly when the text ends outside
      strings and block comments. */
  lemma {:induction false} MinifyStops(s: string)
    requires Terminated(s)
    ensures Minify(s).Some? <==> Closed(Code, s)
    decreases |s|
  {
    hide Minify, Closed, CloseQuote, AfterBlock, AfterLine, Terminated;
    TerminatedShape(s);
    if s[0] == NUL {
      EndStops(s);
    } else {
      var t := s[1..];
      TerminatedTail(s, 1);
      if IsRemoved(s[0]) {
        BlankHead(s);
        PlainTurn(s);
        MinifyStops(t);
      } else if s[0] == '/' && s[1] == '/' {
        LineHead(s);
        SlashTurn(s);
        LineCloses(t);
        TailStops(s, 1 + AfterLine(t));
        MinifyStops(s[1 + AfterLine(t)..]);
      } else if s[0] == '/' && s[1] == '*' {
        BlockHead(s);
        SlashTurn(s);
        BlockCloses(t);
        if AfterBlock(t).Some? {
          TailStops(s, 1 + AfterBlock(t).value);
          MinifyStops(s[1 + AfterBlock(t).value..]);
        }
      } else if s[0] == QUOTE {
        QuoteHead(s);
        QuoteTurn(s);
        QuoteCloses(t);
        if CloseQuote(t).Some? {
          TailStops(s, 2 + CloseQuote(t).value);
          MinifyStops(s[2 + CloseQuote(t).value..]);
        }
      } else {
        PlainHead(s);
        if s[0] == '/' {
          SlashTurn(s);
        } else {
          PlainTurn(s);
        }
        MinifyStops(t);
      }
    }
  }

  lemma TerminatedShape(s: string)
    requires Terminated(s)
    ensures s != "" && (s[0] == NUL ==> s == [NUL]) && (s[0] != NUL ==> |s| > 1)
  {
  }

  lemma EndStops(s: string)
    requires s == [NUL]
    ensures Minify(s).Some? && Closed(Code, s)
  {
  }

  lemma TailStops(s: string, k: nat)
    requires Terminated(s) && 0 < k < |s|
    ensures Terminated(s[k..]) && s[1..][k - 1..] == s[k..]
  {
  }

  lemma {:induction false} NeverCloses(body: string)
    requires forall i | 0 <= i < |body| :: body[i] != QUOTE
    ensures CloseQuote(body) == None
    decreases |body|
  {
    if body != "" {
      var step := if body[0] == BACKSLASH then 2 else 1;
      if step <= |body| {
        NeverCloses(body[step..]);
      }
    }
  }

  lemma {:induction false} NeverEnds(body: string)
    requires forall i | 0 <= i < |body| - 1 :: !(body[i] == '*' && body[i + 1] == '/')
    ensures AfterBlock(body) == None
  {
    if body != "" {
      assert forall i | 0 <= i < |body[1..]| :: body[1..][i] == body[i + 1];
      NeverEnds(body[1..]);
    }
  }

  /** A string that is never closed carries the reader past the terminator. */
  lemma UnclosedReadsOn(body: string)
    requires forall i | 0 <= i < |body| :: body[i] != QUOTE
    ensures Minify([QUOTE] + body + [NUL]) == None
  {
    hide Minify;
    var s := [QUOTE] + body + [NUL];
    assert s[1..] == body + [NUL];
    NeverCloses(body + [NUL]);
    QuoteHead(s);
  }

  /** So does a block comment. */
  lemma UnclosedCommentReadsOn(body: string)
    requires body != "" && body[0] == '*'
    requires forall i | 0 <= i < |body| - 1 :: !(body[i] == '*' && body[i + 1] == '/')
    ensures Minify("/" + body + [NUL]) == None
  {
    hide Minify;
    var s := "/" + body + [NUL];
    assert s[1..] == body + [NUL];
    NeverEnds(body + [NUL]);
    BlockHead(s);
  }

  // ---- in place ----

  /** The writer stands at into, the reader at p: what is written and what is still to
      be read of s make up m, and the unread part is untouched. */
  ghost predicate Minifying(a: seq<char>, s: string, into: nat, p: nat, m: string) {
    && into <= p < |s| <= |a|
    && a[p..|s|] == s[p..]
    && Minify(s[p..]).Some?
    && m == a[..into] + Minify(s[p..]).value
  }

  /** s[at..p] has been moved behind before. */
  ghost predicate Copied(a: seq<char>, s: string, before: seq<char>, at: nat, p: nat) {
    && at <= p <= |s| <= |a| && |before| <= at
    && a[..|before| + (p - at)] == before + s[at..p]
    && a[p..|s|] == s[p..]
  }

  /** Copying characters that Minify keeps. */
  lemma MinifyingCopy(a: seq<char>, b: seq<char>, s: string, into: nat, at: nat, p: nat, m: string)
    requires Minifying(a, s, into, at, m) && at <= p < |s|
    requires Minify(s[at..]) == Prepend(s[at..p], Minify(s[p..]))
    requires Copied(b, s, a[..into], at, p)
    ensures Minifying(b, s, into + (p - at), p, m)
  {
    hide Minify;
    var r := Minify(s[p..]).value;
    assert a[..into] + (s[at..p] + r) == (a[..into] + s[at..p]) + r;
  }

  /** Before anything is copied. */
  lemma CopiedNothing(a: seq<char>, s: string, into: nat, at: nat)
    requires into <= at <= |s| <= |a| && a[at..|s|] == s[at..]
    ensures Copied(a, s, a[..into], at, at)
  {
    assert a[..into] + s[at..at] == a[..into];
  }

  /** Jumping over k characters that Minify drops. */
  lemma MinifyingDrop(a: seq<char>, s: string, into: nat, p: nat, m: string, k: nat)
    requires Minifying(a, s, into, p, m) && p + k < |s|
    requires Minify(s[p..]) == Minify(s[p + k..])
    ensures Minifying(a, s, into, p + k, m)
  {
    hide Minify;
    assert a[p + k..|s|] == a[p..|s|][k..] == s[p..][k..];
  }

  method SkipLine(json: array<char>, at: nat, ghost s: string) returns (p: nat)
    requires at < |s| <= json.Length && Terminated(s) && json[at..|s|] == s[at..]
    ensures p == at + AfterLine(s[at..]) && p < |s|
  {
    p := at;
    assert forall i | at <= i < |s| :: json[i] == json[at..|s|][i - at] == s[i];
    while json[p] != NUL && json[p] != '\n'
      invariant at <= p < |s|
      invariant at + AfterLine(s[at..]) == p + AfterLine(s[p..])
      decreases |s| - p
    {
      assert s[p..][1..] == s[p + 1..];
      p := p + 1;
    }
  }

  method SkipBlock(json: array<char>, at: nat, ghost s: string) returns (p: nat)
    requires at < |s| <= json.Length && Terminated(s) && json[at..|s|] == s[at..]
    requires AfterBlock(s[at..]).Some?
    ensures p == at + AfterBlock(s[at..]).value && p <= |s|
  {
    p := at;
    assert forall i | at <= i < |s| :: json[i] == json[at..|s|][i - at] == s[i];
    while json[p] != NUL && !(json[p] == '*' && json[p + 1] == '/')
      invariant at <= p < |s|
      invariant AfterBlock(s[p..]).Some?
      invariant at + AfterBlock(s[at..]).value == p + AfterBlock(s[p..]).value
      decreases |s| - p
    {
      assert s[p..][1..] == s[p + 1..];
      p := p + 1;
    }
    p := p + 2;
  }

  /** Moves one character from the reader to the writer. */
  method CopyChar(json: array<char>, into: nat, p: nat)
    requires into <= p < json.Length
    modifies json
    ensures json[..into + 1] == old(json[..into]) + [old(json[p])]
    ensures json[p + 1..] == old(json[p + 1..])
  {
    json[into] := json[p];
    assert json[..into + 1] == json[..into] + [json[into]];
  }

  lemma CopiedNext(a: seq<char>, b: seq<char>, s: string, before: seq<char>, at: nat, p: nat)
    requires Copied(a, s, before, at, p) && p < |s| && |b| == |a|
    requires b[..|before| + (p - at) + 1] == a[..|before| + (p - at)] + [a[p]] && b[p + 1..] == a[p + 1..]
    ensures a[p] == s[p] && Copied(b, s, before, at, p + 1)
  {
    assert a[p] == a[p..|s|][0] == s[p];
    assert s[at..p + 1] == s[at..p] + [s[p]];
    assert b[p + 1..|s|] == b[p + 1..][..|s| - p - 1] == a[p + 1..][..|s| - p - 1] == a[p..|s|][1..];
  }

  lemma CopiedRead(a: seq<char>, s: string, before: seq<char>, at: nat, p: nat, i: nat)
    requires Copied(a, s, before, at, p) && p <= i < |s|
    ensures a[i] == s[i]
  {
    assert a[i] == a[p..|s|][i - p] == s[p..][i - p];
  }

  method CopyNext(json: array<char>, ghost s: string, ghost before: seq<char>, ghost at: nat, into: nat, p: nat)
    requires Copied(json[..], s, before, at, p) && p < |s| && into == |before| + (p - at)
    modifies json
    ensures Copied(json[..], s, before, at, p + 1)
    ensures json[|s|..] == old(json[|s|..])
  {
    hide Copied;
    CopiedBounds(json[..], s, before, at, p);
    ghost var a := json[..];
    ghost var tail := json[p + 1..];
    CopyChar(json, into, p);
    assert json[..][..into + 1] == json[..into + 1] && json[..][p + 1..] == json[p + 1..];
    assert a[..into] == old(json[..into]) && a[p + 1..] == tail;
    CopiedNext(a, json[..], s, before, at, p);
    assert json[|s|..] == tail[|s| - p - 1..];
  }

  lemma CopiedBounds(a: seq<char>, s: string, before: seq<char>, at: nat, p: nat)
    requires Copied(a, s, before, at, p)
    ensures at <= p <= |s| <= |a| && |before| <= at
  {
  }

  /** Where the copying loop stands: the closing quote is where it always was. */
  lemma QuoteAhead(s: string, p: nat, close: nat)
    requires Terminated(s) && p < |s| && p <= close && CloseQuote(s[p..]) == Some(close - p)
    ensures close + 1 < |s| && s[close] == QUOTE && (p == close <==> s[p] == QUOTE)
    ensures s[p] == BACKSLASH ==> p + 2 <= close && CloseQuote(s[p + 2..]) == Some(close - p - 2)
    ensures s[p] != BACKSLASH && s[p] != QUOTE ==> CloseQuote(s[p + 1..]) == Some(close - p - 1)
  {
    assert s[p..][0] == s[p] && s[p..][close - p] == s[close];
    assert s[p..][1..] == s[p + 1..];
    if s[p] == BACKSLASH {
      assert s[p..][2..] == s[p + 2..];
    }
  }

  /** Copies the characters up to the closing quote, escapes in pairs. */
  method CopyUntilQuote(json: array<char>, ghost s: string, ghost before: seq<char>, ghost at: nat, ghost close: nat,
                        into0: nat, p0: nat) returns (into: nat, p: nat)
    requires Copied(json[..], s, before, at, p0) && into0 == |before| + (p0 - at)
    requires Terminated(s) && p0 <= close && p0 < |s| && CloseQuote(s[p0..]) == Some(close - p0)
    modifies json
    ensures p == close < |s| - 1 && into == |before| + (p - at)
    ensures Copied(json[..], s, before, at, p)
    ensures json[|s|..] == old(json[|s|..])
  {
    hide CloseQuote, Terminated, Copied;
    into, p := into0, p0;
    QuoteAhead(s, p, close);
    CopiedRead(json[..], s, before, at, p, p);
    CopiedBounds(json[..], s, before, at, p);
    while json[p] != NUL && json[p] != QUOTE
      invariant p0 <= p <= close < |s| - 1 && |s| <= json.Length
      invariant into == |before| + (p - at)
      invariant CloseQuote(s[p..]) == Some(close - p)
      invariant json[p] == s[p]
      invariant Copied(json[..], s, before, at, p)
      invariant json[|s|..] == old(json[|s|..])
      decreases close - p
    {
      QuoteAhead(s, p, close);
      if json[p] == BACKSLASH {
        CopyNext(json, s, before, at, into, p);
        into, p := into + 1, p + 1;
      }
      CopyNext(json, s, before, at, into, p);
      into, p := into + 1, p + 1;
      CopiedRead(json[..], s, before, at, p, p);
    }
    QuoteAhead(s, p, close);
    NotNul(s, p);
  }

  /** Copies a string literal, both quotes included. */
  method CopyString(json: array<char>, into0: nat, at: nat, ghost s: string) returns (into: nat, p: nat)
    requires into0 <= at < |s| <= json.Length && Terminated(s) && json[at..|s|] == s[at..]
    requires s[at] == QUOTE && CloseQuote(s[at + 1..]).Some?
    modifies json
    ensures var n := CloseQuote(s[at + 1..]).value;
            p == at + n + 2 < |s| && into == into0 + n + 2
    ensures Copied(json[..], s, old(json[..into0]), at, p)
    ensures json[|s|..] == old(json[|s|..])
  {
    hide CloseQuote, Terminated;
    ghost var close := at + 1 + CloseQuote(s[at + 1..]).value;
    ghost var before := json[..into0];
    assert json[..][at..|s|] == json[at..|s|] && json[..][..into0] == before;
    CopiedNothing(json[..], s, into0, at);
    assert at + 1 < |s| by { QuoteNotLast(s, at); }
    CopyNext(json, s, before, at, into0, at);
    into, p := CopyUntilQuote(json, s, before, at, close, into0 + 1, at + 1);
    CopyNext(json, s, before, at, into, p);
    into, p := into + 1, p + 1;
  }

  lemma QuoteNotLast(s: string, at: nat)
    requires Terminated(s) && at < |s| && s[at] == QUOTE
    ensures at + 1 < |s|
  {
  }

  lemma NotNul(s: string, p: nat)
    requires Terminated(s) && p + 1 < |s|
    ensures s[p] != NUL
  {
  }

  lemma BlankHead(t: string)
    requires |t| > 1 && IsRemoved(t[0])
    ensures Minify(t) == Minify(t[1..])
  {
    hide CloseQuote, AfterBlock, AfterLine, Prepend;
  }

  lemma LineHead(t: string)
    requires |t| > 1 && t[0] == '/' && t[1] == '/'
    ensures Minify(t) == Minify(t[1 + AfterLine(t[1..])..])
  {
    hide CloseQuote, AfterBlock, AfterLine, Prepend;
  }

  lemma BlockHead(t: string)
    requires |t| > 1 && t[0] == '/' && t[1] == '*'
    ensures Minify(t) == match AfterBlock(t[1..]) case None => None case Some(k) => Minify(t[1 + k..])
  {
    hide CloseQuote, AfterBlock, AfterLine, Prepend;
  }

  lemma QuoteHead(t: string)
    requires t != "" && t[0] == QUOTE
    ensures CloseQuote(t[1..]).None? ==> Minify(t) == None
    ensures CloseQuote(t[1..]).Some? ==>
              var n := CloseQuote(t[1..]).value;
              Minify(t) == Prepend(t[..n + 2], Minify(t[n + 2..]))
  {
    hide CloseQuote, AfterBlock, AfterLine, Prepend;
  }

  lemma PlainHead(t: string)
    requires |t| > 1 && t[0] != NUL && !IsRemoved(t[0]) && t[0] != QUOTE
    requires !(t[0] == '/' && (t[1] == '/' || t[1] == '*'))
    ensures Minify(t) == Prepend([t[0]], Minify(t[1..]))
  {
    hide CloseQuote, AfterBlock, AfterLine, Prepend;
  }

  lemma NothingMinified()
    ensures Minify("") == None
  {
  }

  /** One turn of the minifying loop. */
  lemma MinifyStep(s: string, p: nat)
    requires Terminated(s) && p + 1 < |s| && Minify(s[p..]).Some?
    ensures s[p] != NUL
    ensures IsRemoved(s[p]) ==> Minify(s[p..]) == Minify(s[p + 1..])
    ensures s[p] == '/' && s[p + 1] == '/' ==>
              var k := 1 + AfterLine(s[p + 1..]);
              p + k < |s| && Minify(s[p..]) == Minify(s[p + k..])
    ensures s[p] == '/' && s[p + 1] == '*' ==>
              AfterBlock(s[p + 1..]).Some? &&
              var k := 1 + AfterBlock(s[p + 1..]).value;
              p + k < |s| && Minify(s[p..]) == Minify(s[p + k..])
    ensures s[p] == QUOTE ==>
              CloseQuote(s[p + 1..]).Some? &&
              var k := CloseQuote(s[p + 1..]).value + 2;
              p + k < |s| && Minify(s[p..]) == Prepend(s[p..p + k], Minify(s[p + k..]))
    ensures !IsRemoved(s[p]) && s[p] != QUOTE && !(s[p] == '/' && (s[p + 1] == '/' || s[p + 1] == '*')) ==>
              Minify(s[p..]) == Prepend(s[p..p + 1], Minify(s[p + 1..]))
  {
    hide Minify, CloseQuote, AfterBlock, AfterLine;
    var t := s[p..];
    NothingMinified();
    assert t[0] == s[p] && t[1] == s[p + 1] && t[1..] == s[p + 1..];
    if IsRemoved(s[p]) {
      BlankHead(t);
    } else if s[p] == '/' && s[p + 1] == '/' {
      LineHead(t);
      var k := 1 + AfterLine(s[p + 1..]);
      assert t[k..] == s[p + k..];
    } else if s[p] == '/' && s[p + 1] == '*' {
      BlockHead(t);
      var k := 1 + AfterBlock(s[p + 1..]).value;
      assert t[k..] == s[p + k..];
    } else if s[p] == QUOTE {
      QuoteHead(t);
      var k := CloseQuote(s[p + 1..]).value + 2;
      assert t[k..] == s[p + k..] && t[..k] == s[p..p + k];
    } else {
      PlainHead(t);
      assert [t[0]] == s[p..p + 1];
    }
  }

  lemma NotLast(s: string, p: nat)
    requires Terminated(s) && p < |s| && s[p] != NUL
    ensures p + 1 < |s|
  {
  }

  lemma AtEnd(s: string, p: nat)
    requires Terminated(s) && p < |s| && s[p] == NUL
    ensures s[p..] == [NUL]
  {
  }

  lemma MinifyingRead(a: seq<char>, s: string, into: nat, p: nat, m: string)
    requires Minifying(a, s, into, p, m)
    ensures into <= p < |s| <= |a| && a[p] == s[p] && Minify(s[p..]).Some?
  {
    hide Minify;
    assert a[p] == a[p..|s|][0] == s[p..][0];
  }

  lemma MinifyingUnfold(a: seq<char>, s: string, into: nat, p: nat, m: string)
    requires Minifying(a, s, into, p, m)
    ensures into <= p < |s| <= |a| && a[p..|s|] == s[p..] && Minify(s[p..]).Some?
  {
  }

  /** One turn of the loop. */
  method MinifyOne(json: array<char>, into0: nat, p0: nat, ghost s: string, ghost m: string)
    returns (into: nat, p: nat)
    requires Terminated(s) && p0 + 1 < |s| && Minifying(json[..], s, into0, p0, m)
    modifies json
    ensures p0 < p && Minifying(json[..], s, into, p, m)
    ensures json[|s|..] == old(json[|s|..])
  {
    hide Minify, CloseQuote, AfterBlock, AfterLine, Terminated, Copied, Minifying;
    ghost var a := json[..];
    MinifyingUnfold(a, s, into0, p0, m);
    assert json[p0..|s|] == s[p0..] && json[p0 + 1..|s|] == json[p0..|s|][1..] == s[p0 + 1..];
    MinifyStep(s, p0);
    into := into0;
    if IsRemoved(json[p0]) {
      p := p0 + 1;
      MinifyingDrop(a, s, into, p0, m, 1);
    } else if json[p0] == '/' && json[p0 + 1] == '/' {
      p := SkipLine(json, p0 + 1, s);
      MinifyingDrop(a, s, into, p0, m, p - p0);
    } else if json[p0] == '/' && json[p0 + 1] == '*' {
      p := SkipBlock(json, p0 + 1, s);
      MinifyingDrop(a, s, into, p0, m, p - p0);
    } else if json[p0] == QUOTE {
      assert json[..into0] == a[..into0];
      into, p := CopyString(json, into0, p0, s);
      MinifyingCopy(a, json[..], s, into0, p0, p, m);
    } else {
      CopiedNothing(a, s, into0, p0);
      CopyNext(json, s, a[..into0], p0, into0, p0);
      into, p := into0 + 1, p0 + 1;
      MinifyingCopy(a, json[..], s, into0, p0, p, m);
    }
  }

  /** Minifies in place; the writer never passes the reader. */
  method MinifyInPlace(json: array<char>, ghost s: string)
    requires |s| <= json.Length && json[..|s|] == s && Terminated(s) && Closed(Code, s)
    modifies json
    ensures Minify(s).Some? && var m := Minify(s).value; json[..|m|] == m
    ensures json[|s|..] == old(json[|s|..])
  {
    hide Minify, Closed, CloseQuote, AfterBlock, AfterLine, Terminated;
    MinifyStops(s);
    ghost var m := Minify(s).value;
    var into, p := 0, 0;
    assert s[0..] == s && json[..][..0] == "" && "" + m == m && json[..][0..|s|] == json[..|s|];
    while json[p] != NUL
      invariant 0 <= into <= p < |s| <= json.Length && json[p] == s[p] && Minify(s[p..]).Some?
      invariant Minifying(json[..], s, into, p, m)
      invariant json[|s|..] == old(json[|s|..])
      decreases |s| - p
    {
      NotLast(s, p);
      MinifyStep(s, p);
      into, p := MinifyOne(json, into, p, s, m);
      MinifyingRead(json[..], s, into, p, m);
    }
    json[into] := NUL;
    AtEnd(s, p);
    MinifyNothing();
    assert json[..into + 1] == json[..into] + [NUL];
  }
}
