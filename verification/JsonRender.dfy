/** The text that cJSON prints for a value, as a pure function. */
module JsonRender {
  import opened Basics
  import opened JsonText

  /** Letter of the short escape of c, when it has one. */
  function EscapeLetter(c: char): Option<char> {
    match c
    case '\\' => Some('\\')
    case '\"' => Some('\"')
    case '\U{8}' => Some('b')
    case '\U{c}' => Some('f')
    case '\n' => Some('n')
    case '\r' => Some('r')
    case '\t' => Some('t')
    case _ => None
  }

  function LowerHex(d: nat): char
    requires d < 16
  {
    if d < 10 then ('0' as int + d) as char else ('a' as int + d - 10) as char
  }

  /** How one character of a string is written. */
  function EscapeChar(c: char): (r: string)
    ensures c != NUL ==> 1 <= |r| <= 6 && NulFree(r)
  {
    if c > '\U{1f}' && c != QUOTE && c != BACKSLASH then [c]
    else
      match EscapeLetter(c)
      case Some(letter) => [BACKSLASH, letter]
      case None => "\\u00" + [LowerHex(c as int / 16 % 16), LowerHex(c as int % 16)]
  }

  function Escape(s: string): string {
    if s == "" then "" else EscapeChar(s[0]) + Escape(s[1..])
  }

  lemma {:induction false} EscapeAppend(s: string, c: char)
    ensures Escape(s + [c]) == Escape(s) + EscapeChar(c)
  {
    hide EscapeChar;
    if s == "" {
      assert s + [c] == [c];
      assert Escape([c]) == EscapeChar(c) + Escape("");
    } else {
      EscapeAppend(s[1..], c);
      assert (s + [c])[1..] == s[1..] + [c];
    }
  }

  lemma {:induction false} EscapeSplit(s: string, i: nat)
    requires i <= |s|
    ensures Escape(s) == Escape(s[..i]) + Escape(s[i..])
    decreases |s| - i
  {
    hide EscapeChar;
    if i < |s| {
      EscapeSplit(s, i + 1);
      EscapeAppend(s[..i], s[i]);
      assert s[..i + 1] == s[..i] + [s[i]] && s[i..][1..] == s[i + 1..];
    } else {
      assert s[..i] == s;
    }
  }

  lemma EscapeNext(s: string, i: nat)
    requires i < |s|
    ensures Escape(s[..i + 1]) == Escape(s[..i]) + EscapeChar(s[i])
    ensures |Escape(s[..i + 1])| <= |Escape(s)|
  {
    hide Escape, EscapeChar;
    EscapeAppend(s[..i], s[i]);
    assert s[..i + 1] == s[..i] + [s[i]];
    EscapeSplit(s, i + 1);
  }

  /** Escaping never shortens, and leaves a string alone when it does not lengthen it. */
  lemma {:induction false} EscapeLength(s: string)
    requires NulFree(s)
    ensures |Escape(s)| >= |s|
    ensures |Escape(s)| == |s| ==> Escape(s) == s
  {
    if s != "" {
      EscapeLength(s[1..]);
    }
  }

  function Quoted(s: string): string {
    [QUOTE] + Escape(s) + [QUOTE]
  }

  /** Text that only the formatted (or only the continued) form has. */
  function When(present: bool, s: string): string {
    if present then s else ""
  }

  function Indent(format: bool, depth: nat): (t: string)
    ensures |t| == (if format then depth else 0)
    ensures forall i | 0 <= i < |t| :: t[i] == '\t'
  {
    seq(if format then depth else 0, _ => '\t')
  }

  function Render(v: Json, format: bool, depth: nat): string
    decreases v, 1
  {
    match v
    case Null => "null"
    case False => "false"
    case True => "true"
    case Number(token) => token
    case Str(s) => Quoted(s)
    case Array(items) => "[" + RenderItems(items, format, depth + 1) + "]"
    case Object(members) =>
      OpenBrace(format) + RenderMembers(members, format, depth + 1) + CloseBrace(format, depth)
  }

  function RenderItems(items: seq<Json>, format: bool, depth: nat): string
    decreases items, 0
  {
    if items == [] then ""
    else
      Render(items[0], format, depth)
      + (if |items| == 1 then "" else "," + When(format, " "))
      + RenderItems(items[1..], format, depth)
  }

  /** One member's line: key, value and what separates it from the next. */
  function MemberText(m: Member, more: bool, format: bool, depth: nat): string
    decreases m, 2
  {
    MemberLead(m.key, format, depth) + Render(m.value, format, depth) + MemberTail(more, format)
  }

  function RenderMembers(members: seq<Member>, format: bool, depth: nat): string
    decreases members, 0
  {
    if members == [] then ""
    else
      MemberText(members[0], |members| > 1, format, depth) + RenderMembers(members[1..], format, depth)
  }

  function MemberLead(key: string, format: bool, depth: nat): string {
    Indent(format, depth) + Quoted(key) + Colon(format)
  }

  function Colon(format: bool): string {
    ":" + When(format, "\t")
  }

  function OpenBrace(format: bool): string {
    "{" + When(format, "\n")
  }

  function CloseBrace(format: bool, depth: nat): string {
    Indent(format, depth) + "}"
  }

  function MemberTail(more: bool, format: bool): string {
    When(more, ",") + When(format, "\n")
  }

  /** A token that sprintf may give for a finite number: at most 25 characters, which
      strtod takes as one number. */
  predicate NumberToken(t: string) {
    && 1 <= |t| <= 25
    && (t[0] == '-' || IsDigit(t[0]))
    && (forall i | 0 <= i < |t| :: IsNumeric(t[i]))
    && StrtodLen(t) == |t|
  }

  /** Values whose strings are C strings and whose numbers are printable tokens. */
  predicate Printable(v: Json)
    decreases v, 1
  {
    match v
    case Null => true
    case False => true
    case True => true
    case Number(token) => NumberToken(token)
    case Str(s) => NulFree(s)
    case Array(items) => PrintableItems(items)
    case Object(members) => PrintableMembers(members)
  }

  predicate PrintableItems(items: seq<Json>)
    decreases items, 0
  {
    items == [] || (Printable(items[0]) && PrintableItems(items[1..]))
  }

  predicate PrintableMembers(members: seq<Member>)
    decreases members, 0
  {
    members == [] ||
    (NulFree(members[0].key) && Printable(members[0].value) && PrintableMembers(members[1..]))
  }

  /** Container nesting: 0 for a scalar. */
  function Nesting(v: Json): nat
    decreases v, 1
  {
    match v
    case Array(items) => 1 + NestingItems(items)
    case Object(members) => 1 + NestingMembers(members)
    case _ => 0
  }

  function NestingItems(items: seq<Json>): nat
    decreases items, 0
  {
    if items == [] then 0 else Max(Nesting(items[0]), NestingItems(items[1..]))
  }

  function NestingMembers(members: seq<Member>): nat
    decreases members, 0
  {
    if members == [] then 0 else Max(Nesting(members[0].value), NestingMembers(members[1..]))
  }

  // ---- printed text never contains the terminator ----

  lemma {:induction false} EscapeNulFree(s: string)
    requires NulFree(s)
    ensures NulFree(Escape(s))
  {
    if s != "" {
      EscapeNulFree(s[1..]);
    }
  }

  lemma {:induction false} RenderNulFree(v: Json, format: bool, depth: nat)
    requires Printable(v)
    ensures NulFree(Render(v, format, depth))
    decreases v, 1
  {
    hide Escape, StrtodLen, RenderItems, RenderMembers;
    match v
    case Null =>
    case False =>
    case True =>
    case Number(token) => assert forall i | 0 <= i < |token| :: IsNumeric(token[i]);
    case Str(s) => EscapeNulFree(s);
    case Array(items) => RenderItemsNulFree(items, format, depth + 1);
    case Object(members) => RenderMembersNulFree(members, format, depth + 1);
  }

  lemma {:induction false} RenderItemsNulFree(items: seq<Json>, format: bool, depth: nat)
    requires PrintableItems(items)
    ensures NulFree(RenderItems(items, format, depth))
    decreases items, 0
  {
    hide Render;
    if items != [] {
      RenderNulFree(items[0], format, depth);
      RenderItemsNulFree(items[1..], format, depth);
    }
  }

  lemma {:induction false} RenderMembersNulFree(members: seq<Member>, format: bool, depth: nat)
    requires PrintableMembers(members)
    ensures NulFree(RenderMembers(members, format, depth))
    decreases members, 0
  {
    hide Render, MemberText;
    if members != [] {
      var m := members[0];
      MemberNulFree(m, |members| > 1, format, depth);
      RenderMembersNulFree(members[1..], format, depth);
    }
  }

  lemma {:induction false} MemberNulFree(m: Member, more: bool, format: bool, depth: nat)
    requires NulFree(m.key) && Printable(m.value)
    ensures NulFree(MemberText(m, more, format, depth))
    decreases m, 2
  {
    hide Render, Escape;
    EscapeNulFree(m.key);
    RenderNulFree(m.value, format, depth);
    var lead := MemberLead(m.key, format, depth);
    assert NulFree(lead);
  }
}
