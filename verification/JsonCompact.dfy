/** What is left of a text when it is minified, read one character at a time; and that a
    formatted text is minified to the unformatted one. */
module JsonCompact {
  import opened Basics
  import opened JsonText
  import opened JsonRender
  import opened JsonMinify
  import T = JsonRoundTrip

  predicate Blank(c: char) { c == ' ' || c == '\t' || c == '\r' || c == '\n' }

  /** Reading from left to right: blanks, line and block comments leave, everything else stays.
      A slash waits for the character behind it. */
  function Strip(p: Place, s: string): string
    decreases |s|, if p.Slash? then 1 else 0
  {
    if s == "" || s[0] == NUL then (if p.Slash? then "/" else "") + [NUL]
    else
      match p
      case Code =>
        if s[0] == '/' then Strip(Slash, s[1..])
        else if Blank(s[0]) then Strip(Code, s[1..])
        else if s[0] == QUOTE then [QUOTE] + Strip(InString, s[1..])
        else [s[0]] + Strip(Code, s[1..])
      case Slash =>
        if s[0] == '/' then Strip(Line, s[1..])
        else if s[0] == '*' then Strip(Star, s[1..])
        else "/" + Strip(Code, s)
      case Line => Strip(if s[0] == '\n' then Code else Line, s[1..])
      case Block => Strip(if s[0] == '*' then Star else Block, s[1..])
      case Star => Strip(if s[0] == '/' then Code else if s[0] == '*' then Star else Block, s[1..])
      case InString =>
        [s[0]] + Strip(if s[0] == QUOTE then Code else if s[0] == BACKSLASH then InEscape else InString, s[1..])
      case InEscape => [s[0]] + Strip(InString, s[1..])
  }

  lemma {:induction false} LineStrips(t: string)
    requires Terminated(t)
    ensures AfterLine(t) < |t| && Strip(Line, t) == Strip(Code, t[AfterLine(t)..])
  {
    if t[0] != NUL && t[0] != '\n' {
      TerminatedTail(t, 1);
      LineStrips(t[1..]);
      assert t[1..][AfterLine(t[1..])..] == t[AfterLine(t)..];
    } else if t[0] == '\n' {
      assert t[0..] == t;
    }
  }

  lemma {:induction false} BlockStrips(t: string)
    requires Terminated(t) && AfterBlock(t).Some?
    ensures AfterBlock(t).value < |t| && Strip(Block, t) == Strip(Code, t[AfterBlock(t).value..])
  {
    if t[0] != NUL {
      var u := t[1..];
      TerminatedTail(t, 1);
      if t[0] == '*' && u[0] == '/' {
        assert u[1..] == t[2..];
      } else {
        BlockStrips(u);
        assert Strip(if t[0] == '*' then Star else Block, u) == Strip(Block, u);
        assert u[AfterBlock(u).value..] == t[AfterBlock(t).value..];
      }
    }
  }

  lemma {:induction false} QuoteStrips(t: string)
    requires Terminated(t) && CloseQuote(t).Some?
    ensures var n := CloseQuote(t).value; n + 1 < |t| && Strip(InString, t) == t[..n + 1] + Strip(Code, t[n + 1..])
    decreases |t|
  {
    hide CloseQuote, Strip, Terminated;
    TerminatedShape(t);
    var n := CloseQuote(t).value;
    if t[0] == NUL || t[0] == QUOTE {
      QuoteStops(t);
      CharStrip(t);
      assert t[..1] == [t[0]];
    } else {
      var step := if t[0] == BACKSLASH then 2 else 1;
      QuoteGoesOn(t, step);
      TailStops(t, step);
      QuoteStrips(t[step..]);
      NotNulAt(t, step - 1);
      CharsStrip(t, step);
      CutAgain(t, step, n + 1);
    }
  }

  lemma NotNulAt(t: string, i: nat)
    requires Terminated(t) && i + 1 < |t|
    ensures t[i] != NUL
  {
  }

  lemma CutAgain(t: string, step: nat, k: nat)
    requires step <= k <= |t|
    ensures t[..step] + t[step..][..k - step] == t[..k] && t[step..][k - step..] == t[k..]
    ensures forall x: string :: t[..step] + (t[step..][..k - step] + x) == t[..k] + x
  {
    assert t[..step] + t[step..][..k - step] == t[..k];
    forall x: string
      ensures t[..step] + (t[step..][..k - step] + x) == t[..k] + x
    {
      assert t[..step] + (t[step..][..k - step] + x) == t[..step] + t[step..][..k - step] + x;
    }
  }

  lemma CharsStrip(t: string, step: nat)
    requires t != "" && t[0] != NUL && t[0] != QUOTE && step == (if t[0] == BACKSLASH then 2 else 1) && step < |t|
    requires t[step - 1] != NUL
    ensures Strip(InString, t) == t[..step] + Strip(InString, t[step..])
  {
    CharStrip(t);
    CharStrip(t[1..]);
    hide Strip;
    if step == 2 {
      assert t[1..][1..] == t[2..];
      Cons2(t, Strip(InString, t[2..]));
    } else {
      assert t[..1] == [t[0]];
    }
  }

  lemma Cons2(t: string, x: string)
    requires |t| >= 2
    ensures [t[0]] + ([t[1..][0]] + x) == t[..2] + x
  {
    assert t[..2] == [t[0]] + [t[1]];
  }

  lemma CharStrip(t: string)
    requires t != ""
    ensures t[0] != NUL && t[0] == QUOTE ==> Strip(InString, t) == [t[0]] + Strip(Code, t[1..])
    ensures t[0] != NUL && t[0] == BACKSLASH ==> Strip(InString, t) == [t[0]] + Strip(InEscape, t[1..])
    ensures t[0] != NUL && t[0] != QUOTE && t[0] != BACKSLASH ==> Strip(InString, t) == [t[0]] + Strip(InString, t[1..])
    ensures t[0] != NUL ==> Strip(InEscape, t) == [t[0]] + Strip(InString, t[1..])
  {
  }

  lemma SlashStrips(s: string)
    requires |s| > 1 && s[0] == '/'
    ensures s[1] == '/' ==> Strip(Code, s) == Strip(Line, s[1..])
    ensures s[1] == '*' ==> Strip(Code, s) == Strip(Block, s[1..])
    ensures s[1] != '/' && s[1] != '*' ==> Strip(Code, s) == "/" + Strip(Code, s[1..])
  {
    assert Strip(Code, s) == Strip(Slash, s[1..]);
  }

  lemma PlainStrips(s: string)
    requires s != "" && s[0] != NUL && s[0] != '/'
    ensures Blank(s[0]) ==> Strip(Code, s) == Strip(Code, s[1..])
    ensures s[0] == QUOTE ==> Strip(Code, s) == [QUOTE] + Strip(InString, s[1..])
    ensures !Blank(s[0]) && s[0] != QUOTE ==> Strip(Code, s) == [s[0]] + Strip(Code, s[1..])
  {
  }

  lemma NothingStripped()
    ensures Strip(Code, [NUL]) == [NUL] && Minify([NUL]) == Some([NUL])
  {
  }

  /** What the first turn reads, and what it keeps. */
  lemma FirstTurn(s: string) returns (k: nat, kept: string)
    requires Terminated(s) && s[0] != NUL && Minify(s).Some?
    ensures 0 < k < |s| && Terminated(s[k..])
    ensures Minify(s) == Prepend(kept, Minify(s[k..])) && Strip(Code, s) == kept + Strip(Code, s[k..])
  {
    hide Minify, Strip, CloseQuote, AfterBlock, AfterLine, Terminated, NextKept, NoJoin;
    TerminatedShape(s);
    if IsRemoved(s[0]) {
      k, kept := 1, "";
      BlankHead(s);
      TailStops(s, 1);
      PlainStrips(s);
    } else if s[0] == '/' && s[1] == '/' {
      k, kept := 1 + AfterLine(s[1..]), "";
      LineHead(s);
      LineEnds(s);
      LineGone(s);
    } else if s[0] == '/' && s[1] == '*' {
      BlockHead(s);
      k, kept := 1 + AfterBlock(s[1..]).value, "";
      BlockEnds(s);
      BlockGone(s);
    } else if s[0] == QUOTE {
      QuoteHead(s);
      k := CloseQuote(s[1..]).value + 2;
      kept := s[..k];
      LiteralEnds(s);
      LiteralStays(s);
    } else {
      k, kept := 1, [s[0]];
      PlainHead(s);
      TailStops(s, 1);
      CharStays(s);
    }
    NothingKept(Minify(s[k..]), Strip(Code, s[k..]));
  }

  lemma NothingKept(m: Option<string>, x: string)
    ensures Prepend("", m) == m && "" + x == x
  {
    if m.Some? {
      assert "" + m.value == m.value;
    }
  }

  /** The minified text is what reading one character at a time leaves. */
  lemma {:induction false} MinifyStrips(s: string)
    requires Terminated(s) && Minify(s).Some?
    ensures Minify(s) == Some(Strip(Code, s))
    decreases |s|
  {
    hide Minify, Strip, Terminated;
    TerminatedShape(s);
    if s[0] == NUL {
      NothingStripped();
    } else {
      var k, kept := FirstTurn(s);
      MinifyStrips(s[k..]);
    }
  }

  lemma LineGone(s: string)
    requires Terminated(s) && |s| > 1 && s[0] == '/' && s[1] == '/'
    ensures 1 + AfterLine(s[1..]) <= |s| && Strip(Code, s) == Strip(Code, s[1 + AfterLine(s[1..])..])
  {
    hide Strip, AfterLine, Terminated;
    TailStops(s, 1);
    SlashStrips(s);
    LineStrips(s[1..]);
    TailStops(s, 1 + AfterLine(s[1..]));
  }

  lemma BlockGone(s: string)
    requires Terminated(s) && |s| > 1 && s[0] == '/' && s[1] == '*' && AfterBlock(s[1..]).Some?
    ensures 1 + AfterBlock(s[1..]).value <= |s| && Strip(Code, s) == Strip(Code, s[1 + AfterBlock(s[1..]).value..])
  {
    hide Strip, AfterBlock, Terminated;
    TailStops(s, 1);
    SlashStrips(s);
    BlockStrips(s[1..]);
    TailStops(s, 1 + AfterBlock(s[1..]).value);
  }

  lemma LiteralStays(s: string)
    requires Terminated(s) && |s| > 1 && s[0] == QUOTE && CloseQuote(s[1..]).Some?
    ensures var n := CloseQuote(s[1..]).value;
            n + 2 <= |s| && Strip(Code, s) == s[..n + 2] + Strip(Code, s[n + 2..])
  {
    hide Strip, CloseQuote, Terminated;
    TailStops(s, 1);
    PlainStrips(s);
    QuoteStrips(s[1..]);
    var n := CloseQuote(s[1..]).value;
    TailStops(s, n + 2);
    LiteralJoins(s, n, Strip(Code, s[n + 2..]));
  }

  lemma CharStays(s: string)
    requires |s| > 1 && s[0] != NUL && !Blank(s[0]) && s[0] != QUOTE
    requires !(s[0] == '/' && (s[1] == '/' || s[1] == '*'))
    ensures Strip(Code, s) == [s[0]] + Strip(Code, s[1..])
  {
    hide Strip;
    if s[0] == '/' {
      SlashStrips(s);
    } else {
      PlainStrips(s);
    }
  }

  lemma LiteralJoins(s: string, n: nat, x: string)
    requires n + 2 <= |s| && s[0] == QUOTE
    ensures [QUOTE] + (s[1..][..n + 1] + x) == s[..n + 2] + x
  {
    assert [QUOTE] + s[1..][..n + 1] == s[..n + 2];
  }

  // ---- what is gone ----

  /** No blank stands outside a string literal. */
  predicate Bare(p: Place, m: string)
    decreases |m|
  {
    m == "" || m[0] == NUL ||
    match p
    case InString => Bare(if m[0] == QUOTE then Code else if m[0] == BACKSLASH then InEscape else InString, m[1..])
    case InEscape => Bare(InString, m[1..])
    case _ => !Blank(m[0]) && Bare(if m[0] == QUOTE then InString else Code, m[1..])
  }

  /** No comment begins outside a string literal. */
  predicate CommentFree(p: Place, m: string)
    decreases |m|
  {
    m == "" || m[0] == NUL ||
    match p
    case InString =>
      CommentFree(if m[0] == QUOTE then Code else if m[0] == BACKSLASH then InEscape else InString, m[1..])
    case InEscape => CommentFree(InString, m[1..])
    case _ =>
      && !(m[0] == '/' && |m| > 1 && (m[1] == '/' || m[1] == '*'))
      && CommentFree(if m[0] == QUOTE then InString else Code, m[1..])
  }

  lemma StepCut(t: string, n: nat, step: nat, x: string)
    requires n < |t| && 0 < step <= n
    ensures (t[..n + 1] + x)[step..] == t[step..][..n - step + 1] + x
    ensures (t[..n + 1] + x)[0] == t[0] && (t[..n + 1] + x)[1..][0] == t[1]
    ensures (t[..n + 1] + x)[1..][1..] == (t[..n + 1] + x)[2..]
  {
    var u := t[..n + 1] + x;
    assert t[..n + 1][step..] == t[step..][..n - step + 1];
    assert u[step..] == t[..n + 1][step..] + x;
  }

  lemma {:induction false} LiteralBare(t: string, n: nat, x: string)
    requires CloseQuote(t) == Some(n) && forall i | 0 <= i <= n :: t[i] != NUL
    ensures Bare(InString, t[..n + 1] + x) == Bare(Code, x)
    ensures CommentFree(InString, t[..n + 1] + x) == CommentFree(Code, x)
    decreases |t|
  {
    var u := t[..n + 1] + x;
    if t[0] == QUOTE {
      assert u[1..] == x;
    } else {
      var step := if t[0] == BACKSLASH then 2 else 1;
      LiteralBare(t[step..], n - step, x);
      StepCut(t, n, step, x);
    }
  }

  /** What holds of the text minified from behind the first turn on holds of the whole. */
  predicate Carries(s: string, k: nat)
    requires k <= |s|
  {
    Minify(s).Some? ==>
      && Minify(s[k..]).Some?
      && (Bare(Code, Minify(s[k..]).value) ==> Bare(Code, Minify(s).value))
      && (NoJoin(s) ==> NoJoin(s[k..]))
      && (NoJoin(s) && CommentFree(Code, Minify(s[k..]).value) ==> CommentFree(Code, Minify(s).value))
  }

  lemma BlankCarries(s: string)
    requires |s| > 1 && IsRemoved(s[0])
    ensures Carries(s, 1)
  {
    BlankHead(s);
    hide Minify, Bare, CommentFree, CloseQuote, AfterBlock, AfterLine, NextKept;
  }

  lemma LineCarries(s: string)
    requires |s| > 1 && s[0] == '/' && s[1] == '/'
    ensures Carries(s, 1 + AfterLine(s[1..]))
  {
    LineHead(s);
    hide Minify, Bare, CommentFree, CloseQuote, AfterBlock, AfterLine, NextKept;
  }

  lemma BlockCarries(s: string)
    requires |s| > 1 && s[0] == '/' && s[1] == '*' && AfterBlock(s[1..]).Some?
    ensures Carries(s, 1 + AfterBlock(s[1..]).value)
  {
    BlockHead(s);
    hide Minify, Bare, CommentFree, CloseQuote, AfterBlock, AfterLine, NextKept;
  }

  lemma LiteralCarries(s: string)
    requires Terminated(s) && |s| > 1 && s[0] == QUOTE && CloseQuote(s[1..]).Some?
    requires CloseQuote(s[1..]).value + 2 < |s|
    ensures Carries(s, CloseQuote(s[1..]).value + 2)
  {
    QuoteHead(s);
    hide Minify, Bare, CommentFree, CloseQuote, AfterBlock, AfterLine, NextKept, Terminated;
    var n := CloseQuote(s[1..]).value;
    if Minify(s).Some? {
      KeptLiteral(s, n, Minify(s[n + 2..]).value);
    }
  }

  lemma CharCarries(s: string)
    requires |s| > 1 && s[0] != NUL && !IsRemoved(s[0]) && s[0] != QUOTE
    requires !(s[0] == '/' && (s[1] == '/' || s[1] == '*'))
    ensures Carries(s, 1)
  {
    PlainHead(s);
    hide Minify, Bare, CommentFree, CloseQuote, AfterBlock, AfterLine, NextKept;
    if Minify(s).Some? {
      MinifyStarts(s[1..]);
      KeptChar(s[0], Minify(s[1..]).value);
    }
  }

  lemma TurnCarries(s: string) returns (k: nat)
    requires Terminated(s) && s[0] != NUL && Minify(s).Some?
    ensures 0 < k < |s| && Terminated(s[k..]) && Carries(s, k)
  {
    hide Minify, Carries, CloseQuote, AfterBlock, AfterLine, Terminated;
    TerminatedShape(s);
    if IsRemoved(s[0]) {
      k := 1;
      TailStops(s, 1);
      BlankCarries(s);
    } else if s[0] == '/' && s[1] == '/' {
      k := 1 + AfterLine(s[1..]);
      LineEnds(s);
      LineCarries(s);
    } else if s[0] == '/' && s[1] == '*' {
      BlockHead(s);
      k := 1 + AfterBlock(s[1..]).value;
      BlockEnds(s);
      BlockCarries(s);
    } else if s[0] == QUOTE {
      QuoteHead(s);
      k := CloseQuote(s[1..]).value + 2;
      LiteralEnds(s);
      LiteralCarries(s);
    } else {
      k := 1;
      TailStops(s, 1);
      CharCarries(s);
    }
  }

  /** Minified text has no blanks outside strings, and no comments when none was joined. */
  lemma {:induction false} MinifiedIsBare(s: string)
    requires Terminated(s) && Minify(s).Some?
    ensures Bare(Code, Minify(s).value) && (NoJoin(s) ==> CommentFree(Code, Minify(s).value))
    decreases |s|
  {
    hide Minify, Bare, CommentFree, NoJoin, Terminated;
    TerminatedShape(s);
    if s[0] == NUL {
      NothingIsBare();
      AtEndOf(s);
    } else {
      var k := TurnCarries(s);
      MinifiedIsBare(s[k..]);
    }
  }

  lemma NothingIsBare()
    ensures Minify([NUL]) == Some([NUL]) && Bare(Code, [NUL]) && CommentFree(Code, [NUL])
  {
  }

  lemma AtEndOf(s: string)
    requires Terminated(s) && s[0] == NUL
    ensures s == [NUL]
  {
  }

  lemma KeptChar(c: char, r: string)
    requires r != "" && c != NUL && !Blank(c) && c != QUOTE
    ensures Bare(Code, [c] + r) == Bare(Code, r)
    ensures !(c == '/' && (r[0] == '/' || r[0] == '*')) ==> CommentFree(Code, [c] + r) == CommentFree(Code, r)
  {
    assert ([c] + r)[1..] == r;
  }

  lemma LineEnds(s: string)
    requires Terminated(s) && |s| > 1 && s[0] == '/' && s[1] == '/'
    ensures 1 + AfterLine(s[1..]) < |s| && Terminated(s[1 + AfterLine(s[1..])..])
  {
    TerminatedTail(s, 1);
    LineStrips(s[1..]);
    TerminatedTail(s, 1 + AfterLine(s[1..]));
  }

  lemma BlockEnds(s: string)
    requires Terminated(s) && |s| > 1 && s[0] == '/' && s[1] == '*' && AfterBlock(s[1..]).Some?
    ensures 1 + AfterBlock(s[1..]).value < |s| && Terminated(s[1 + AfterBlock(s[1..]).value..])
  {
    TerminatedTail(s, 1);
    BlockStrips(s[1..]);
    TerminatedTail(s, 1 + AfterBlock(s[1..]).value);
  }

  lemma LiteralEnds(s: string)
    requires Terminated(s) && |s| > 1 && s[0] == QUOTE && CloseQuote(s[1..]).Some?
    ensures CloseQuote(s[1..]).value + 2 < |s| && Terminated(s[CloseQuote(s[1..]).value + 2..])
  {
    TerminatedTail(s, 1);
    QuoteStrips(s[1..]);
    TerminatedTail(s, CloseQuote(s[1..]).value + 2);
  }

  lemma KeptLiteral(s: string, n: nat, x: string)
    requires Terminated(s) && |s| > 1 && s[0] == QUOTE && CloseQuote(s[1..]) == Some(n) && n + 2 < |s|
    ensures Bare(Code, s[..n + 2] + x) == Bare(Code, x)
    ensures CommentFree(Code, s[..n + 2] + x) == CommentFree(Code, x)
  {
    var t, m := s[1..], s[..n + 2] + x;
    assert forall i | 0 <= i <= n :: t[i] == s[i + 1] != NUL;
    LiteralBare(t, n, x);
    assert m[0] == QUOTE && m[1..] == t[..n + 1] + x;
  }

  // ---- formatted text ----

  predicate ShrinksIn(a: string, b: string, rest: string) {
    Minify(a + rest) == Prepend(b, Minify(rest))
  }

  /** Minifying leaves b of a, whatever follows. */
  ghost predicate Shrinks(a: string, b: string) {
    forall rest :: ShrinksIn(a, b, rest)
  }

  lemma ShrinksJoin(a: string, b: string, c: string, d: string)
    requires Shrinks(a, b) && Shrinks(c, d)
    ensures Shrinks(a + c, b + d)
  {
    hide ShrinksIn;
    forall rest
      ensures ShrinksIn(a + c, b + d, rest)
    {
      assert ShrinksIn(a, b, c + rest) && ShrinksIn(c, d, rest);
      ShrinksBoth(a, b, c, d, rest);
    }
  }

  lemma ShrinksBoth(a: string, b: string, c: string, d: string, rest: string)
    requires ShrinksIn(a, b, c + rest) && ShrinksIn(c, d, rest)
    ensures ShrinksIn(a + c, b + d, rest)
  {
    hide Minify;
    assert a + c + rest == a + (c + rest);
    if Minify(rest).Some? {
      assert b + d + Minify(rest).value == b + (d + Minify(rest).value);
    }
  }

  lemma ShrinksPlain(word: string)
    requires forall i | 0 <= i < |word| :: IsCopied(word[i])
    ensures Shrinks(word, word)
  {
    hide Minify;
    forall rest
      ensures ShrinksIn(word, word, rest)
    {
      CopiesPlain(word, rest);
    }
  }

  lemma ShrinksBlanks(blanks: string)
    requires forall i | 0 <= i < |blanks| :: IsRemoved(blanks[i])
    ensures Shrinks(blanks, "")
  {
    hide Minify;
    forall rest
      ensures ShrinksIn(blanks, "", rest)
    {
      BlanksGo(blanks, rest);
    }
  }

  lemma {:induction false} BlanksGo(blanks: string, rest: string)
    requires forall i | 0 <= i < |blanks| :: IsRemoved(blanks[i])
    ensures Minify(blanks + rest) == Prepend("", Minify(rest))
  {
    hide Minify;
    if blanks == "" {
      assert blanks + rest == rest;
      assert Minify(rest).Some? ==> "" + Minify(rest).value == Minify(rest).value;
    } else {
      assert (blanks + rest)[1..] == blanks[1..] + rest;
      BlanksGo(blanks[1..], rest);
      BlankGoes(blanks + rest);
    }
  }

  lemma BlankGoes(t: string)
    requires t != "" && IsRemoved(t[0])
    ensures Minify(t) == Minify(t[1..])
  {
  }

  lemma ShrinksQuoted(s: string)
    requires NulFree(s)
    ensures Shrinks(Quoted(s), Quoted(s))
  {
    hide Minify, Escape, CloseQuote, Unescape;
    forall rest
      ensures ShrinksIn(Quoted(s), Quoted(s), rest)
    {
      var e, t := Escape(s), [QUOTE] + rest;
      T.EscapeScans(s, t);
      var m := Quoted(s) + rest;
      assert m[1..] == e + t && m[..|e| + 2] == Quoted(s) && m[|e| + 2..] == rest;
      assert CloseQuote(e + t) == Some(|e|);
      QuoteHead(m);
    }
  }

  lemma ShrinksWhen(word: string, format: bool)
    requires forall i | 0 <= i < |word| :: IsRemoved(word[i])
    ensures Shrinks(When(format, word), When(false, word))
  {
    hide Minify;
    ShrinksBlanks(if format then word else "");
  }

  lemma ShrinksIndent(format: bool, depth: nat)
    ensures Shrinks(Indent(format, depth), Indent(false, depth))
  {
    hide Minify, Shrinks;
    ShrinksBlanks(Indent(format, depth));
    assert Indent(false, depth) == "";
  }

  lemma ShrinksNumber(token: string)
    requires NumberToken(token)
    ensures Shrinks(token, token)
  {
    hide Shrinks, StrtodLen;
    ShrinksPlain(token);
  }

  lemma {:induction false} ShrinksRender(v: Json, format: bool, depth: nat)
    requires Printable(v)
    ensures Shrinks(Render(v, format, depth), Render(v, false, depth))
    decreases v, 1
  {
    hide Shrinks, NumberToken, OpenBrace, CloseBrace, RenderItems, RenderMembers, Quoted;
    match v
    case Null => ShrinksPlain("null");
    case False => ShrinksPlain("false");
    case True => ShrinksPlain("true");
    case Number(token) => ShrinksNumber(token);
    case Str(x) => ShrinksQuoted(x);
    case Array(items) =>
      ShrinksPlain("[");
      ShrinksPlain("]");
      ShrinksItems(items, format, depth + 1);
      ShrinksJoin("[", "[", RenderItems(items, format, depth + 1), RenderItems(items, false, depth + 1));
      ShrinksJoin("[" + RenderItems(items, format, depth + 1), "[" + RenderItems(items, false, depth + 1), "]", "]");
    case Object(members) =>
      ShrinksBraces(format, depth);
      ShrinksMembers(members, format, depth + 1);
      ShrinksJoin(OpenBrace(format), OpenBrace(false), RenderMembers(members, format, depth + 1),
                  RenderMembers(members, false, depth + 1));
      ShrinksJoin(OpenBrace(format) + RenderMembers(members, format, depth + 1),
                  OpenBrace(false) + RenderMembers(members, false, depth + 1), CloseBrace(format, depth),
                  CloseBrace(false, depth));
  }

  lemma ShrinksBraces(format: bool, depth: nat)
    ensures Shrinks(OpenBrace(format), OpenBrace(false)) && Shrinks(CloseBrace(format, depth), CloseBrace(false, depth))
  {
    hide Shrinks, Indent;
    ShrinksPlain("{");
    ShrinksPlain("}");
    ShrinksWhen("\n", format);
    ShrinksIndent(format, depth);
    ShrinksJoin("{", "{", When(format, "\n"), When(false, "\n"));
    ShrinksJoin(Indent(format, depth), Indent(false, depth), "}", "}");
  }

  lemma {:induction false} ShrinksItems(items: seq<Json>, format: bool, depth: nat)
    requires PrintableItems(items)
    ensures Shrinks(RenderItems(items, format, depth), RenderItems(items, false, depth))
    decreases items, 0
  {
    hide Shrinks, Render;
    if items == [] {
      ShrinksPlain("");
    } else {
      var a, b := Render(items[0], format, depth), Render(items[0], false, depth);
      var c := if |items| == 1 then "" else "," + When(format, " ");
      var d := if |items| == 1 then "" else "," + When(false, " ");
      ShrinksRender(items[0], format, depth);
      ShrinksPlain("");
      ShrinksPlain(",");
      ShrinksWhen(" ", format);
      ShrinksJoin(",", ",", When(format, " "), When(false, " "));
      assert Shrinks(c, d);
      ShrinksItems(items[1..], format, depth);
      ShrinksJoin(a, b, c, d);
      ShrinksJoin(a + c, b + d, RenderItems(items[1..], format, depth), RenderItems(items[1..], false, depth));
    }
  }

  lemma {:induction false} ShrinksMembers(members: seq<Member>, format: bool, depth: nat)
    requires PrintableMembers(members)
    ensures Shrinks(RenderMembers(members, format, depth), RenderMembers(members, false, depth))
    decreases members, 0
  {
    hide Shrinks, MemberText;
    if members == [] {
      ShrinksPlain("");
    } else {
      ShrinksMember(members[0], |members| > 1, format, depth);
      ShrinksMembers(members[1..], format, depth);
      var more := |members| > 1;
      ShrinksJoin(MemberText(members[0], more, format, depth), MemberText(members[0], more, false, depth),
                  RenderMembers(members[1..], format, depth), RenderMembers(members[1..], false, depth));
    }
  }

  lemma {:induction false} ShrinksMember(m: Member, more: bool, format: bool, depth: nat)
    requires NulFree(m.key) && Printable(m.value)
    ensures Shrinks(MemberText(m, more, format, depth), MemberText(m, more, false, depth))
    decreases m, 2
  {
    hide Shrinks, Render, MemberLead, MemberTail, Printable;
    ShrinksLead(m.key, format, depth);
    ShrinksTail(more, format);
    ShrinksRender(m.value, format, depth);
    ShrinksJoin(MemberLead(m.key, format, depth), MemberLead(m.key, false, depth), Render(m.value, format, depth),
                Render(m.value, false, depth));
    ShrinksJoin(MemberLead(m.key, format, depth) + Render(m.value, format, depth),
                MemberLead(m.key, false, depth) + Render(m.value, false, depth), MemberTail(more, format),
                MemberTail(more, false));
  }

  lemma ShrinksLead(key: string, format: bool, depth: nat)
    requires NulFree(key)
    ensures Shrinks(MemberLead(key, format, depth), MemberLead(key, false, depth))
  {
    hide Shrinks, Indent, Quoted;
    ShrinksIndent(format, depth);
    ShrinksQuoted(key);
    ShrinksPlain(":");
    ShrinksWhen("\t", format);
    ShrinksJoin(":", ":", When(format, "\t"), When(false, "\t"));
    ShrinksJoin(Indent(format, depth), Indent(false, depth), Quoted(key), Quoted(key));
    ShrinksJoin(Indent(format, depth) + Quoted(key), Indent(false, depth) + Quoted(key), Colon(format), Colon(false));
  }

  lemma ShrinksTail(more: bool, format: bool)
    ensures Shrinks(MemberTail(more, format), MemberTail(more, false))
  {
    hide Shrinks;
    ShrinksPlain(When(more, ","));
    ShrinksWhen("\n", format);
    ShrinksJoin(When(more, ","), When(more, ","), When(format, "\n"), When(false, "\n"));
  }

  /** Minifying a printed text, formatted or not, gives the unformatted one; which has no blank
      outside strings. */
  lemma FormattedShrinks(v: Json, format: bool)
    requires Printable(v)
    ensures Minify(Render(v, format, 0) + [NUL]) == Some(Render(v, false, 0) + [NUL])
    ensures Bare(Code, Render(v, false, 0) + [NUL]) && CommentFree(Code, Render(v, false, 0) + [NUL])
  {
    hide Minify, Render, Bare, CommentFree, Shrinks, NoJoin, Printable;
    NothingStripped();
    ShrinksRender(v, format, 0);
    ShrinksRender(v, false, 0);
    assert Shrinks(Render(v, format, 0), Render(v, false, 0)) && Shrinks(Render(v, false, 0), Render(v, false, 0));
    ShrinksEnd(Render(v, format, 0), Render(v, false, 0));
    ShrinksEnd(Render(v, false, 0), Render(v, false, 0));
    var m := Render(v, false, 0) + [NUL];
    RenderNulFree(v, false, 0);
    assert Terminated(m);
    MinifyTwice(m);
    MinifiedIsBare(m);
  }

  lemma ShrinksEnd(a: string, b: string)
    requires Shrinks(a, b)
    ensures Minify(a + [NUL]) == Some(b + [NUL])
  {
    NothingStripped();
    hide Minify;
    assert ShrinksIn(a, b, [NUL]);
  }

  // ---- how formatted text is laid out ----

  function Tabs(n: nat): string {
    if n == 0 then "" else "\t" + Tabs(n - 1)
  }

  /** What a character of unformatted text becomes, how many are read, and what they open or close. */
  datatype Laid = Laid(out: string, used: nat, open: string, p: Place)

  function CodeTurn(open: string, s: string): (r: Laid)
    requires s != ""
    ensures 0 < r.used <= |s|
  {
    var n := |open|;
    if s[0] == QUOTE then Laid([QUOTE], 1, open, InString)
    else if s[0] == '{' && |s| > 1 && s[1] == '}' then Laid("{\n" + Tabs(n) + "}", 2, open, Code)
    else if s[0] == '{' then Laid("{\n" + Tabs(n + 1), 1, open + "{", Code)
    else if s[0] == '}' && n > 0 then Laid("\n" + Tabs(n - 1) + "}", 1, open[..n - 1], Code)
    else if s[0] == '[' then Laid("[", 1, open + "[", Code)
    else if s[0] == ']' && n > 0 then Laid("]", 1, open[..n - 1], Code)
    else if s[0] == ',' then Laid(if n > 0 && open[n - 1] == '{' then ",\n" + Tabs(n) else ", ", 1, open, Code)
    else if s[0] == ':' then Laid(":\t", 1, open, Code)
    else Laid([s[0]], 1, open, Code)
  }

  function Turn(open: string, p: Place, s: string): (r: Laid)
    requires s != ""
    ensures 0 < r.used <= |s|
  {
    match p
    case InString =>
      Laid([s[0]], 1, open, if s[0] == QUOTE then Code else if s[0] == BACKSLASH then InEscape else InString)
    case InEscape => Laid([s[0]], 1, open, InString)
    case _ => CodeTurn(open, s)
  }

  /** Unformatted text laid out, from left to right; open are the brackets that are open. */
  function Layout(open: string, p: Place, s: string): string
    decreases |s|
  {
    if s == "" || s[0] == NUL then s
    else
      var t := Turn(open, p, s);
      t.out + Layout(t.open, t.p, s[t.used..])
  }

  lemma LaidOut(open: string, p: Place, s: string, t: Laid)
    requires s != "" && s[0] != NUL && t == Turn(open, p, s)
    ensures Layout(open, p, s) == t.out + Layout(t.open, t.p, s[t.used..])
  {
    hide Turn;
  }

  lemma {:induction false} TabsAreIndent(n: nat)
    ensures Tabs(n) == Indent(true, n)
  {
    if n > 0 {
      TabsAreIndent(n - 1);
    }
  }

  predicate Lays(c: char) {
    c != NUL && c !in ['{', '}', '[', ']', ',', ':', QUOTE]
  }

  lemma {:induction false} PlainLaid(word: string, open: string, x: string)
    requires forall i | 0 <= i < |word| :: Lays(word[i])
    ensures Layout(open, Code, word + x) == word + Layout(open, Code, x)
  {
    hide Layout;
    if word == "" {
      assert word + x == x;
    } else {
      assert (word + x)[1..] == word[1..] + x;
      PlainLaid(word[1..], open, x);
      CharLaid(word + x, open);
      assert [word[0]] + (word[1..] + Layout(open, Code, x)) == word + Layout(open, Code, x);
    }
  }

  lemma CharLaid(s: string, open: string)
    requires s != "" && Lays(s[0])
    ensures Layout(open, Code, s) == [s[0]] + Layout(open, Code, s[1..])
  {
    hide Layout, Tabs;
    LaidOut(open, Code, s, Turn(open, Code, s));
  }

  lemma {:induction false} LiteralLaid(t: string, n: nat, open: string, x: string)
    requires CloseQuote(t) == Some(n) && forall i | 0 <= i <= n :: t[i] != NUL
    ensures Layout(open, InString, t[..n + 1] + x) == t[..n + 1] + Layout(open, Code, x)
    decreases |t|
  {
    hide Layout;
    var u := t[..n + 1] + x;
    if t[0] == QUOTE {
      LaidOut(open, InString, u, Turn(open, InString, u));
      assert u[1..] == x;
    } else {
      var step := if t[0] == BACKSLASH then 2 else 1;
      LiteralLaid(t[step..], n - step, open, x);
      StepCut(t, n, step, x);
      StepLaid(u, step, open);
      hide CloseQuote;
      var y := Layout(open, Code, x);
      StepCut(t, n, step, y);
      assert u[..step] == t[..step] && (t[..n + 1] + y)[..step] == t[..step];
      assert t[..step] + (t[..n + 1] + y)[step..] == t[..n + 1] + y;
    }
  }

  lemma Two(a: char, b: char, x: string)
    ensures [a] + ([b] + x) == [a] + [b] + x
  {
  }

  lemma StepLaid(u: string, step: nat, open: string)
    requires step < |u| && u[0] != NUL && u[0] != QUOTE && step == (if u[0] == BACKSLASH then 2 else 1)
    requires u[step - 1] != NUL
    ensures Layout(open, InString, u) == u[..step] + Layout(open, InString, u[step..])
  {
    hide Layout;
    LaidOut(open, InString, u, Turn(open, InString, u));
    if step == 2 {
      var v := u[1..];
      LaidOut(open, InEscape, v, Turn(open, InEscape, v));
      assert v[1..] == u[2..];
      Two(u[0], v[0], Layout(open, InString, u[2..]));
      assert u[..2] == [u[0]] + [v[0]];
    }
  }

  lemma QuotedLaid(s: string, open: string, x: string)
    requires NulFree(s)
    ensures Layout(open, Code, Quoted(s) + x) == Quoted(s) + Layout(open, Code, x)
  {
    hide Escape, CloseQuote, Unescape, Layout;
    var e, t := Escape(s), [QUOTE] + x;
    T.EscapeScans(s, t);
    EscapeNulFree(s);
    assert (e + t)[..|e| + 1] == e + [QUOTE];
    assert forall i | 0 <= i <= |e| :: (e + t)[i] == (e + [QUOTE])[i];
    LiteralLaid(e + t, |e|, open, x);
    assert (Quoted(s) + x)[1..] == e + [QUOTE] + x;
    QuoteLaid(open, Quoted(s) + x);
    assert [QUOTE] + (e + [QUOTE] + Layout(open, Code, x)) == Quoted(s) + Layout(open, Code, x);
  }

  lemma QuoteLaid(open: string, s: string)
    requires s != "" && s[0] == QUOTE
    ensures Layout(open, Code, s) == [QUOTE] + Layout(open, InString, s[1..])
  {
    hide Layout, Tabs;
    LaidOut(open, Code, s, Turn(open, Code, s));
  }

  lemma NumberLays(token: string)
    requires NumberToken(token)
    ensures forall i | 0 <= i < |token| :: Lays(token[i])
  {
    hide StrtodLen;
  }

  lemma {:induction false} RenderLaid(v: Json, depth: nat, open: string, x: string)
    requires Printable(v)
    ensures Layout(open, Code, Render(v, false, depth) + x) == Render(v, true, |open|) + Layout(open, Code, x)
    decreases v, 1
  {
    hide Layout, NumberToken, RenderItems, RenderMembers, Quoted, Indent;
    match v
    case Null => PlainLaid("null", open, x);
    case False => PlainLaid("false", open, x);
    case True => PlainLaid("true", open, x);
    case Number(token) =>
      NumberLays(token);
      PlainLaid(token, open, x);
    case Str(s) => QuotedLaid(s, open, x);
    case Array(items) => ArrayLaid(items, depth, open, x);
    case Object(members) => ObjectLaid(members, depth, open, x);
  }

  lemma {:induction false} ArrayLaid(items: seq<Json>, depth: nat, open: string, x: string)
    requires PrintableItems(items)
    ensures Layout(open, Code, Render(Array(items), false, depth) + x)
         == Render(Array(items), true, |open|) + Layout(open, Code, x)
    decreases items, 1
  {
    hide RenderItems, Layout;
    var a, b := RenderItems(items, false, depth + 1), RenderItems(items, true, |open| + 1);
    var inner := open + "[";
    assert Render(Array(items), false, depth) + x == "[" + (a + ("]" + x));
    Brackets(open, a + ("]" + x), x);
    ItemsLaid(items, depth + 1, inner, "]" + x);
    assert Render(Array(items), true, |open|) == "[" + b + "]";
    assert "[" + (b + ("]" + Layout(open, Code, x))) == "[" + b + "]" + Layout(open, Code, x);
  }

  lemma Brackets(open: string, s: string, x: string)
    ensures Layout(open, Code, "[" + s) == "[" + Layout(open + "[", Code, s)
    ensures Layout(open + "[", Code, "]" + x) == "]" + Layout(open, Code, x)
  {
    hide Layout;
    OpenSquare(open, "[" + s);
    CloseSquare(open + "[", "]" + x);
    assert ("[" + s)[1..] == s && ("]" + x)[1..] == x;
    assert (open + "[")[..|open|] == open;
  }

  lemma OpenSquare(open: string, s: string)
    requires s != "" && s[0] == '['
    ensures Layout(open, Code, s) == "[" + Layout(open + "[", Code, s[1..])
  {
    hide Layout, Tabs;
    LaidOut(open, Code, s, Turn(open, Code, s));
  }

  lemma CloseSquare(open: string, s: string)
    requires s != "" && s[0] == ']' && open != ""
    ensures Layout(open, Code, s) == "]" + Layout(open[..|open| - 1], Code, s[1..])
  {
    hide Layout, Tabs;
    LaidOut(open, Code, s, Turn(open, Code, s));
  }

  lemma OpenCurly(open: string, s: string)
    requires |s| > 1 && s[0] == '{'
    ensures s[1] == '}' ==> Layout(open, Code, s) == "{\n" + Tabs(|open|) + "}" + Layout(open, Code, s[2..])
    ensures s[1] != '}' ==> Layout(open, Code, s) == "{\n" + Tabs(|open| + 1) + Layout(open + "{", Code, s[1..])
  {
    hide Layout, Tabs;
    LaidOut(open, Code, s, Turn(open, Code, s));
  }

  lemma CloseCurly(open: string, s: string)
    requires s != "" && s[0] == '}' && open != ""
    ensures Layout(open, Code, s) == "\n" + Tabs(|open| - 1) + "}" + Layout(open[..|open| - 1], Code, s[1..])
  {
    hide Layout, Tabs;
    LaidOut(open, Code, s, Turn(open, Code, s));
  }

  lemma CommaLaid(open: string, s: string)
    requires open != ""
    ensures open[|open| - 1] == '[' ==> Layout(open, Code, "," + s) == ", " + Layout(open, Code, s)
    ensures open[|open| - 1] == '{' ==> Layout(open, Code, "," + s) == ",\n" + Tabs(|open|) + Layout(open, Code, s)
  {
    hide Layout, Tabs;
    var t := "," + s;
    LaidOut(open, Code, t, Turn(open, Code, t));
    assert t[1..] == s;
  }

  lemma {:induction false} ItemsLaid(items: seq<Json>, depth: nat, open: string, x: string)
    requires PrintableItems(items) && open != "" && open[|open| - 1] == '['
    ensures Layout(open, Code, RenderItems(items, false, depth) + x)
         == RenderItems(items, true, |open|) + Layout(open, Code, x)
    decreases items, 0
  {
    hide Render, Layout;
    if items == [] {
      assert "" + x == x;
    } else {
      var a, b := Render(items[0], false, depth), RenderItems(items[1..], false, depth);
      var c, d := Render(items[0], true, |open|), RenderItems(items[1..], true, |open|);
      ItemsLaid(items[1..], depth, open, x);
      if |items| == 1 {
        assert RenderItems(items, false, depth) + x == a + (b + x);
        RenderLaid(items[0], depth, open, b + x);
        Three(c, "", d, Layout(open, Code, x));
      } else {
        assert RenderItems(items, false, depth) + x == a + ("," + (b + x)) by { Three(a, ",", b, x); }
        RenderLaid(items[0], depth, open, "," + (b + x));
        CommaLaid(open, b + x);
        Three(c, ", ", d, Layout(open, Code, x));
      }
    }
  }

  lemma Three(a: string, b: string, c: string, x: string)
    ensures a + (b + (c + x)) == a + b + c + x && a + (b + "") + c + x == a + b + c + x
    ensures b == "" ==> a + (c + x) == a + b + c + x
  {
  }

  lemma {:induction false} ObjectLaid(members: seq<Member>, depth: nat, open: string, x: string)
    requires PrintableMembers(members)
    ensures Layout(open, Code, Render(Object(members), false, depth) + x)
         == Render(Object(members), true, |open|) + Layout(open, Code, x)
    decreases members, 1
  {
    hide RenderMembers, Layout, Indent;
    var n, a := |open|, RenderMembers(members, false, depth + 1);
    var y := Layout(open, Code, x);
    TabsAreIndent(n);
    BracesPlain(members, depth, a, x);
    if members == [] {
      EmptyLaid(open, x);
      EmptyRenders(n);
      assert "{\n" + Tabs(n) + "}" + y == ("{" + "\n") + "" + (Tabs(n) + "}") + y;
    } else {
      MembersStart(members, depth + 1);
      BraceLaid(open, a + ("}" + x));
      MembersLaid(members, depth + 1, open + "{", x);
      assert (open + "{")[..n] == open;
      var b := RenderMembers(members, true, n + 1);
      BracesFormatted(b, Tabs(n), y);
    }
  }

  lemma BracesPlain(members: seq<Member>, depth: nat, a: string, x: string)
    requires a == RenderMembers(members, false, depth + 1)
    ensures Render(Object(members), false, depth) + x == "{" + (a + ("}" + x))
    ensures members == [] ==> Render(Object(members), false, depth) + x == "{}" + x
  {
    hide RenderMembers;
    assert Indent(false, depth) == "";
    assert Render(Object(members), false, depth) == ("{" + "") + a + ("" + "}");
    if members == [] {
      assert a == "" by { NoneRendered(depth + 1); }
    }
  }

  lemma NoneRendered(depth: nat)
    ensures RenderMembers([], false, depth) == "" == RenderMembers([], true, depth)
  {
  }

  lemma EmptyRenders(n: nat)
    ensures Render(Object([]), true, n) == ("{" + "\n") + "" + (Indent(true, n) + "}")
  {
    hide Indent;
  }

  lemma BracesFormatted(b: string, tabs: string, y: string)
    ensures "{\n" + (b + (tabs + "}" + y)) == ("{" + "\n") + b + (tabs + "}") + y
  {
  }

  lemma EmptyLaid(open: string, x: string)
    ensures Layout(open, Code, "{}" + x) == "{\n" + Tabs(|open|) + "}" + Layout(open, Code, x)
  {
    hide Layout;
    OpenCurly(open, "{}" + x);
    assert ("{}" + x)[2..] == x;
  }

  lemma BraceLaid(open: string, s: string)
    requires s != "" && s[0] == QUOTE
    ensures Layout(open, Code, "{" + s) == "{\n" + (Tabs(|open| + 1) + Layout(open + "{", Code, s))
  {
    hide Layout, Tabs;
    OpenCurly(open, "{" + s);
    assert ("{" + s)[1..] == s;
    Three("{\n", Tabs(|open| + 1), Layout(open + "{", Code, s), "");
  }

  lemma MembersStart(members: seq<Member>, depth: nat)
    requires members != []
    ensures RenderMembers(members, false, depth) != "" && RenderMembers(members, false, depth)[0] == QUOTE
  {
    hide Render;
    assert Indent(false, depth) == "";
  }

  /** One member's text, without what precedes and follows it. */
  function Entry(m: Member, format: bool, depth: nat): string {
    Quoted(m.key) + (Colon(format) + Render(m.value, format, depth))
  }

  lemma MembersRender(members: seq<Member>, depth: nat)
    requires members != []
    ensures RenderMembers(members, false, depth)
         == Entry(members[0], false, depth) + (When(|members| > 1, ",") + RenderMembers(members[1..], false, depth))
    ensures RenderMembers(members, true, depth)
         == Indent(true, depth)
            + (Entry(members[0], true, depth)
               + (When(|members| > 1, ",") + ("\n" + RenderMembers(members[1..], true, depth))))
  {
    hide Render, Quoted, RenderMembers;
    var m, more := members[0], When(|members| > 1, ",");
    RenderFirst(members, false, depth);
    RenderFirst(members, true, depth);
    assert Indent(false, depth) == "";
    hide Indent;
    LineJoins("", Quoted(m.key), Colon(false), Render(m.value, false, depth), more, "",
              RenderMembers(members[1..], false, depth));
    LineJoins(Indent(true, depth), Quoted(m.key), Colon(true), Render(m.value, true, depth), more, "\n",
              RenderMembers(members[1..], true, depth));
  }

  lemma RenderFirst(members: seq<Member>, format: bool, depth: nat)
    requires members != []
    ensures RenderMembers(members, format, depth)
         == (Indent(format, depth) + Quoted(members[0].key) + Colon(format)) + Render(members[0].value, format, depth)
            + (When(|members| > 1, ",") + When(format, "\n")) + RenderMembers(members[1..], format, depth)
  {
    hide Render, Quoted, Indent;
  }

  lemma LineJoins(tabs: string, key: string, colon: string, value: string, comma: string, line: string, tail: string)
    ensures (tabs + key + colon) + value + (comma + line) + tail
         == tabs + ((key + (colon + value)) + (comma + (line + tail)))
    ensures tabs == "" && line == "" ==>
              (tabs + key + colon) + value + (comma + line) + tail == (key + (colon + value)) + (comma + tail)
  {
  }

  lemma {:induction false} EntryLaid(m: Member, depth: nat, open: string, x: string)
    requires NulFree(m.key) && Printable(m.value)
    ensures Layout(open, Code, Entry(m, false, depth) + x) == Entry(m, true, |open|) + Layout(open, Code, x)
    decreases m, 2
  {
    hide Layout, Render, Quoted;
    var key, value, y := Quoted(m.key), Render(m.value, false, depth), Layout(open, Code, x);
    assert Entry(m, false, depth) + x == key + (":" + (value + x)) by { Colons(key, ":", value, x); }
    QuotedLaid(m.key, open, ":" + (value + x));
    ColonLaid(open, value + x);
    RenderLaid(m.value, depth, open, x);
    Colons(key, ":\t", Render(m.value, true, |open|), y);
    assert ":" + "\t" == ":\t";
  }

  lemma Colons(key: string, colon: string, value: string, x: string)
    ensures key + (colon + value) + x == key + (colon + (value + x))
    ensures key + ((colon + "") + value) + x == key + (colon + (value + x))
  {
    assert colon + "" == colon;
  }

  lemma ColonLaid(open: string, s: string)
    ensures Layout(open, Code, ":" + s) == ":\t" + Layout(open, Code, s)
  {
    hide Layout;
    var t := ":" + s;
    LaidOut(open, Code, t, Turn(open, Code, t));
    assert t[1..] == s;
  }

  lemma EndLaid(open: string, x: string)
    requires open != ""
    ensures Layout(open, Code, "}" + x)
         == "\n" + (Tabs(|open| - 1) + "}" + Layout(open[..|open| - 1], Code, x))
  {
    hide Layout, Tabs;
    CloseCurly(open, "}" + x);
    assert ("}" + x)[1..] == x;
    Grouped("\n", Tabs(|open| - 1), "}", Layout(open[..|open| - 1], Code, x));
  }

  lemma Grouped(a: string, b: string, c: string, d: string)
    ensures a + b + c + d == a + (b + c + d)
  {
  }

  lemma {:induction false} MembersLaid(members: seq<Member>, depth: nat, open: string, x: string)
    requires PrintableMembers(members) && members != [] && open != "" && open[|open| - 1] == '{'
    ensures Tabs(|open|) + Layout(open, Code, RenderMembers(members, false, depth) + ("}" + x))
         == RenderMembers(members, true, |open|) + (Tabs(|open| - 1) + "}" + Layout(open[..|open| - 1], Code, x))
    decreases members, 0
  {
    hide Layout, Entry, Indent, RenderMembers, Printable;
    var m, others, n := members[0], members[1..], |open|;
    var end, tail := "}" + x, RenderMembers(members[1..], false, depth);
    var y := Tabs(n - 1) + "}" + Layout(open[..n - 1], Code, x);
    MembersRender(members, depth);
    MembersRender(members, n);
    TabsAreIndent(n);
    FirstPrintable(members);
    if |members| == 1 {
      assert tail == "" && RenderMembers(others, true, n) == "" by { NoneRendered(depth); NoneRendered(n); }
      assert RenderMembers(members, false, depth) + end == Entry(m, false, depth) + end;
      EntryLaid(m, depth, open, end);
      EndLaid(open, x);
      LastLine(Tabs(n), Entry(m, true, n), y);
    } else {
      assert RenderMembers(members, false, depth) + end == Entry(m, false, depth) + ("," + (tail + end)) by {
        CommaJoins(Entry(m, false, depth), tail, end);
      }
      EntryLaid(m, depth, open, "," + (tail + end));
      CommaLaid(open, tail + end);
      MembersLaid(others, depth, open, x);
      NextLine(Tabs(n), Entry(m, true, n), Layout(open, Code, tail + end), RenderMembers(others, true, n), y);
    }
  }

  lemma FirstPrintable(members: seq<Member>)
    requires PrintableMembers(members) && members != []
    ensures NulFree(members[0].key) && Printable(members[0].value) && PrintableMembers(members[1..])
  {
    hide Printable;
  }

  lemma LastLine(tabs: string, entry: string, y: string)
    ensures tabs + (entry + ("\n" + y)) == tabs + (entry + ("" + ("\n" + ""))) + y
  {
  }

  lemma CommaJoins(entry: string, tail: string, end: string)
    ensures entry + ("," + tail) + end == entry + ("," + (tail + end))
  {
  }

  lemma NextLine(tabs: string, entry: string, z: string, tail: string, y: string)
    requires tabs + z == tail + y
    ensures tabs + (entry + (",\n" + tabs + z)) == tabs + (entry + ("," + ("\n" + tail))) + y
  {
    assert ",\n" + tabs + z == ",\n" + (tabs + z);
  }

  /** Formatted text is the unformatted one laid out: a line and its tabs for every member and
      closing brace, a tab behind every colon, a blank behind every comma in an array. */
  lemma FormattedLaid(v: Json)
    requires Printable(v)
    ensures Render(v, true, 0) == Layout("", Code, Render(v, false, 0))
  {
    hide Layout, Render;
    RenderLaid(v, 0, "", "");
    assert Render(v, false, 0) + "" == Render(v, false, 0);
    assert Layout("", Code, "") == "" by { NothingLaid(); }
    assert Render(v, true, 0) + "" == Render(v, true, 0);
  }

  lemma NothingLaid()
    ensures Layout("", Code, "") == ""
  {
  }
}
