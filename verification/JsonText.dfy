/** The text language that cJSON reads, as pure functions from the text still to
    be read to a value and the text left over.  A C char is a Dafny char; the C
    terminator is the last character of the text. */
module JsonText {
  import opened Basics

  datatype Json =
    | Null
    | False
    | True
    | Number(token: string)
    | Str(value: string)
    | Array(items: seq<Json>)
    | Object(members: seq<Member>)

  datatype Member = Member(key: string, value: Json)

  /** Outcome of reading one construct: what was read and the rest of the text. */
  datatype Parsed<+T> = Fail | Read(value: T, rest: string)

  const NESTING_LIMIT: nat := 10

  const NUL := '\0'
  const QUOTE := '\"'
  const BACKSLASH := '\\'

  predicate Begins(s: string, word: string) {
    |word| <= |s| && forall i | 0 <= i < |word| :: s[i] == word[i]
  }

  /** A C string with its terminator: exactly one NUL, and it is the last character. */
  predicate Terminated(s: string) {
    |s| > 0 && s[|s| - 1] == NUL && forall i | 0 <= i < |s| - 1 :: s[i] != NUL
  }

  predicate NulFree(s: string) {
    forall i | 0 <= i < |s| :: s[i] != NUL
  }

  /** What a C reader sees of a buffer: everything before the first NUL. */
  function CString(s: string): (r: string)
    ensures NulFree(r) && r <= s
    ensures NulFree(s) ==> r == s
  {
    if s == "" || s[0] == NUL then "" else [s[0]] + CString(s[1..])
  }

  // ---- white space ----

  /** Every character up to and including the space is skipped; a scan that runs
      off the end steps back onto the last character. */
  function SkipWs(s: string): (r: string)
    ensures |r| <= |s|
    ensures s != "" ==> r != ""
  {
    if |s| > 1 && s[0] <= ' ' then SkipWs(s[1..]) else s
  }

  // ---- numbers ----

  predicate IsDigit(c: char) { '0' <= c <= '9' }

  predicate IsNumeric(c: char) {
    IsDigit(c) || c == '+' || c == '-' || c == 'e' || c == 'E' || c == '.'
  }

  /** Length of the run of numeric characters that is copied, at most max. */
  function NumericRun(s: string, max: nat): (n: nat)
    ensures n <= |s| && n <= max
    ensures forall i | 0 <= i < n :: IsNumeric(s[i])
    ensures n < max && n < |s| ==> !IsNumeric(s[n])
  {
    if s != "" && max > 0 && IsNumeric(s[0]) then 1 + NumericRun(s[1..], max - 1) else 0
  }

  function Digits(s: string): (n: nat)
    ensures n <= |s|
  {
    if s != "" && IsDigit(s[0]) then 1 + Digits(s[1..]) else 0
  }

  /** Length of an exponent part, or 0 when there is none. */
  function ExponentLen(s: string): (n: nat)
    ensures n <= |s|
  {
    if s == "" || (s[0] != 'e' && s[0] != 'E') then 0
    else
      var sign := if |s| > 1 && (s[1] == '+' || s[1] == '-') then 1 else 0;
      var d := Digits(s[1 + sign..]);
      if d == 0 then 0 else 1 + sign + d
  }

  /** How much of a run of numeric characters strtod consumes. */
  function StrtodLen(s: string): (n: nat)
    ensures n <= |s|
  {
    var sign := if s != "" && (s[0] == '+' || s[0] == '-') then 1 else 0;
    var whole := Digits(s[sign..]);
    var point := sign + whole;
    var dot := if point < |s| && s[point] == '.' then 1 else 0;
    var frac := if dot == 1 then Digits(s[point + 1..]) else 0;
    if whole + frac == 0 then 0
    else
      var exp := point + dot + frac;
      exp + ExponentLen(s[exp..])
  }

  function ParseNumber(s: string): (r: Parsed<Json>)
    ensures r.Read? ==> |r.rest| < |s|
  {
    var n := StrtodLen(s[..NumericRun(s, 63)]);
    if n == 0 then Fail else Read(Number(s[..n]), s[n..])
  }

  // ---- strings ----

  function HexDigit(c: char): (r: Option<nat>)
    ensures r.Some? ==> r.value < 16
  {
    if '0' <= c <= '9' then Some(c as nat - '0' as nat)
    else if 'A' <= c <= 'F' then Some(10 + c as nat - 'A' as nat)
    else if 'a' <= c <= 'f' then Some(10 + c as nat - 'a' as nat)
    else None
  }

  /** Four hexadecimal digits; anything else counts as the code 0. */
  function Hex4(s: string): (h: nat)
    requires |s| >= 4
    ensures h < 0x10000
  {
    match (HexDigit(s[0]), HexDigit(s[1]), HexDigit(s[2]), HexDigit(s[3]))
    case (Some(a), Some(b), Some(c), Some(d)) => 4096 * a + 256 * b + 16 * c + d
    case _ => 0
  }

  predicate HighSurrogate(w: nat) { 0xD800 <= w <= 0xDBFF }

  predicate LowSurrogate(w: nat) { 0xDC00 <= w <= 0xDFFF }

  /** A \uXXXX literal or a surrogate pair at the front of t, of which only the first
      n characters belong to the string: the code point and the literal's length. */
  datatype Literal = BadLiteral | Literal(codepoint: nat, length: nat)

  function ReadLiteral(t: string, n: nat): (r: Literal)
    requires n < |t|
    ensures r.Literal? ==> r.length <= n && r.codepoint <= 0x10FFFF && (r.length == 6 || r.length == 12)
  {
    if n < 6 then BadLiteral
    else
      var first := Hex4(t[2..6]);
      if LowSurrogate(first) then BadLiteral
      else if HighSurrogate(first) then
        if n < 12 || t[6] != BACKSLASH || t[7] != 'u' then BadLiteral
        else
          var second := Hex4(t[8..12]);
          if !LowSurrogate(second) then BadLiteral
          else Literal(0x10000 + (first % 0x400) * 0x400 + second % 0x400, 12)
      else Literal(first, 6)
  }

  /** Section 3 of RFC 3629. */
  function Utf8(cp: nat): (s: string)
    requires cp <= 0x10FFFF
    ensures 1 <= |s| <= 4
    ensures cp >= 0x80 ==> forall i | 0 <= i < |s| :: 0x80 <= s[i] as int <= 0xFF
  {
    if cp < 0x80 then [cp as char]
    else if cp < 0x800 then [(0xC0 + cp / 0x40) as char, (0x80 + cp % 0x40) as char]
    else if cp < 0x10000 then
      [(0xE0 + cp / 0x1000) as char, (0x80 + cp / 0x40 % 0x40) as char, (0x80 + cp % 0x40) as char]
    else
      [(0xF0 + cp / 0x40000) as char, (0x80 + cp / 0x1000 % 0x40) as char,
       (0x80 + cp / 0x40 % 0x40) as char, (0x80 + cp % 0x40) as char]
  }

  /** The character a one-letter escape stands for. */
  function ShortEscape(c: char): Option<char> {
    match c
    case 'b' => Some('\U{8}')
    case 'f' => Some('\U{c}')
    case 'n' => Some('\n')
    case 'r' => Some('\r')
    case 't' => Some('\t')
    case '\"' => Some('\"')
    case '\\' => Some('\\')
    case '/' => Some('/')
    case _ => None
  }

  /** Index of the closing quote of a string whose opening quote has been read. */
  function CloseQuote(t: string): (r: Option<nat>)
    ensures r.Some? ==> r.value < |t| && t[r.value] == QUOTE
  {
    if t == "" then None
    else if t[0] == QUOTE then Some(0)
    else
      var step := if t[0] == BACKSLASH then 2 else 1;
      if |t| < step then None
      else
        match CloseQuote(t[step..])
        case None => None
        case Some(n) => Some(n + step)
  }

  function Prepend(prefix: string, r: Option<string>): Option<string> {
    if r.None? then None else Some(prefix + r.value)
  }

  /** Unescapes the first n characters of t.  A backslash that is the last of them
      takes the closing quote behind it as its letter. */
  function Unescape(t: string, n: nat): Option<string>
    requires n < |t|
    decreases n
  {
    if n == 0 then Some("")
    else if t[0] != BACKSLASH then Prepend([t[0]], Unescape(t[1..], n - 1))
    else if t[1] == 'u' then
      match ReadLiteral(t, n)
      case BadLiteral => None
      case Literal(cp, length) => Prepend(Utf8(cp), Unescape(t[length..], n - length))
    else
      match ShortEscape(t[1])
      case None => None
      case Some(c) => if n == 1 then Some([c]) else Prepend([c], Unescape(t[2..], n - 2))
  }

  function ParseString(s: string): (r: Parsed<string>)
    ensures r.Read? ==> |r.rest| < |s|
    ensures r.Read? ==> NulFree(r.value)
  {
    if s == "" || s[0] != QUOTE then Fail
    else
      match CloseQuote(s[1..])
      case None => Fail
      case Some(n) =>
        match Unescape(s[1..], n)
        case None => Fail
        case Some(v) => Read(CString(v), s[n + 2..])
  }

  // ---- values ----

  function ParseValue(s: string, depth: nat): (r: Parsed<Json>)
    ensures r.Read? ==> |r.rest| < |s|
    decreases |s|, 1
  {
    if Begins(s, "null") then Read(Null, s[4..])
    else if Begins(s, "false") then Read(False, s[5..])
    else if Begins(s, "true") then Read(True, s[4..])
    else if s == "" then Fail
    else if s[0] == QUOTE then
      match ParseString(s)
      case Fail => Fail
      case Read(v, rest) => Read(Str(v), rest)
    else if s[0] == '-' || IsDigit(s[0]) then ParseNumber(s)
    else if s[0] == '[' then ParseArray(s, depth)
    else if s[0] == '{' then ParseObject(s, depth)
    else Fail
  }

  function ParseArray(s: string, depth: nat): (r: Parsed<Json>)
    requires s != "" && s[0] == '['
    ensures r.Read? ==> |r.rest| < |s|
    decreases |s|, 0
  {
    var body := SkipWs(s[1..]);
    if depth >= NESTING_LIMIT || body == "" then Fail
    else if body[0] == ']' then Read(Array([]), body[1..])
    else
      match ParseItems(body, depth + 1)
      case Fail => Fail
      case Read(items, rest) => Read(Array(items), rest)
  }

  function ParseObject(s: string, depth: nat): (r: Parsed<Json>)
    requires s != "" && s[0] == '{'
    ensures r.Read? ==> |r.rest| < |s|
    decreases |s|, 0
  {
    var body := SkipWs(s[1..]);
    if depth >= NESTING_LIMIT || body == "" then Fail
    else if body[0] == '}' then Read(Object([]), body[1..])
    else
      match ParseMembers(body, depth + 1)
      case Fail => Fail
      case Read(members, rest) => Read(Object(members), rest)
  }

  /** The elements of an array from the first one on, up to and including the bracket. */
  function ParseItems(s: string, depth: nat): (r: Parsed<seq<Json>>)
    ensures r.Read? ==> |r.rest| < |s|
    decreases |s|, 2
  {
    match ParseValue(s, depth)
    case Fail => Fail
    case Read(item, after) =>
      var next := SkipWs(after);
      if next != "" && next[0] == ',' then
        match ParseItems(SkipWs(next[1..]), depth)
        case Fail => Fail
        case Read(items, rest) => Read([item] + items, rest)
      else if next != "" && next[0] == ']' then Read([item], next[1..])
      else Fail
  }

  /** One member: key, colon and value. */
  function ParseMember(s: string, depth: nat): (r: Parsed<Member>)
    ensures r.Read? ==> |r.rest| < |s|
    decreases |s|, 2
  {
    match ParseString(s)
    case Fail => Fail
    case Read(key, afterKey) =>
      var colon := SkipWs(afterKey);
      if colon == "" || colon[0] != ':' then Fail
      else
        match ParseValue(SkipWs(colon[1..]), depth)
        case Fail => Fail
        case Read(value, after) => Read(Member(key, value), after)
  }

  /** The members of an object from the first key on, up to and including the brace. */
  function ParseMembers(s: string, depth: nat): (r: Parsed<seq<Member>>)
    ensures r.Read? ==> |r.rest| < |s|
    decreases |s|, 3
  {
    match ParseMember(s, depth)
    case Fail => Fail
    case Read(member, after) =>
      var next := SkipWs(after);
      if next != "" && next[0] == ',' then
        match ParseMembers(SkipWs(next[1..]), depth)
        case Fail => Fail
        case Read(members, rest) => Read([member] + members, rest)
      else if next != "" && next[0] == '}' then Read([member], next[1..])
      else Fail
  }

  /** All values but the three words are recognised by their first character alone. */
  lemma Dispatch(s: string, depth: nat)
    requires s != ""
    ensures s[0] == QUOTE ==>
              ParseValue(s, depth) == match ParseString(s) case Fail => Fail case Read(v, rest) => Read(Str(v), rest)
    ensures s[0] == '-' || IsDigit(s[0]) ==> ParseValue(s, depth) == ParseNumber(s)
    ensures s[0] == '[' ==> ParseValue(s, depth) == ParseArray(s, depth)
    ensures s[0] == '{' ==> ParseValue(s, depth) == ParseObject(s, depth)
  {
    hide ParseString, ParseNumber;
  }

  /** How the list parsers go on behind one element. */
  lemma ItemsStep(s: string, item: Json, after: string, depth: nat)
    requires ParseValue(s, depth) == Read(item, after)
    ensures ParseItems(s, depth) ==
            var next := SkipWs(after);
            if next != "" && next[0] == ',' then
              match ParseItems(SkipWs(next[1..]), depth)
              case Fail => Fail
              case Read(items, rest) => Read([item] + items, rest)
            else if next != "" && next[0] == ']' then Read([item], next[1..])
            else Fail
  {
    hide ParseValue, SkipWs;
  }

  lemma MembersStep(s: string, m: Member, after: string, depth: nat)
    requires ParseMember(s, depth) == Read(m, after)
    ensures ParseMembers(s, depth) ==
            var next := SkipWs(after);
            if next != "" && next[0] == ',' then
              match ParseMembers(SkipWs(next[1..]), depth)
              case Fail => Fail
              case Read(members, rest) => Read([m] + members, rest)
            else if next != "" && next[0] == '}' then Read([m], next[1..])
            else Fail
  {
    hide ParseMember, SkipWs;
  }

  // ---- whole texts ----

  const BOM := "\U{ef}\U{bb}\U{bf}"

  function SkipBom(s: string): string {
    if |s| > 4 && Begins(s, BOM) then s[3..] else s
  }

  /** cJSON_ParseWithOpts with a null-terminated text required. */
  function ParseText(text: string): Option<Json> {
    ParseTerminated(text + [NUL])
  }

  function ParseTerminated(s: string): Option<Json> {
    match ParseValue(SkipWs(SkipBom(s)), 0)
    case Fail => None
    case Read(value, rest) =>
      var end := SkipWs(rest);
      if end != "" && end[0] == NUL then Some(value) else None
  }
}
