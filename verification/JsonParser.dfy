/** The recursive-descent parser over a cursor that moves through the text. */
module JsonParser {
  import opened Basics
  import opened JsonText
  import opened JsonUnescape
  import opened JsonTree

  function AfterItems(items: seq<Json>, r: Parsed<seq<Json>>): Parsed<seq<Json>> {
    match r
    case Fail => Fail
    case Read(more, rest) => Read(items + more, rest)
  }

  function AfterMembers(members: seq<Member>, r: Parsed<seq<Member>>): Parsed<seq<Member>> {
    match r
    case Fail => Fail
    case Read(more, rest) => Read(members + more, rest)
  }

  /** Parsing one element when items have been read already. */
  lemma ItemsUnfold(items: seq<Json>, s: string, depth: nat)
    ensures AfterItems(items, ParseItems(s, depth)) ==
            match ParseValue(s, depth)
            case Fail => Fail
            case Read(item, after) =>
              var next := SkipWs(after);
              if next != "" && next[0] == ',' then
                AfterItems(items + [item], ParseItems(SkipWs(next[1..]), depth))
              else if next != "" && next[0] == ']' then Read(items + [item], next[1..])
              else Fail
  {
    hide ParseValue, SkipWs;
    match ParseValue(s, depth)
    case Fail =>
    case Read(item, after) =>
      var next := SkipWs(after);
      if next != "" && next[0] == ',' {
        match ParseItems(SkipWs(next[1..]), depth)
        case Fail =>
        case Read(more, rest) => assert items + ([item] + more) == items + [item] + more;
      }
  }

  /** Parsing one member when members have been read already. */
  lemma MembersUnfold(members: seq<Member>, s: string, depth: nat)
    ensures AfterMembers(members, ParseMembers(s, depth)) ==
            match ParseMember(s, depth)
            case Fail => Fail
            case Read(member, after) =>
              var next := SkipWs(after);
              if next != "" && next[0] == ',' then
                AfterMembers(members + [member], ParseMembers(SkipWs(next[1..]), depth))
              else if next != "" && next[0] == '}' then Read(members + [member], next[1..])
              else Fail
  {
    hide ParseMember, SkipWs;
    match ParseMember(s, depth)
    case Fail =>
    case Read(member, after) =>
      var next := SkipWs(after);
      if next != "" && next[0] == ',' {
        match ParseMembers(SkipWs(next[1..]), depth)
        case Fail =>
        case Read(more, rest) => assert members + ([member] + more) == members + [member] + more;
      }
  }

  lemma {:induction false} SkipWsTwice(s: string)
    ensures SkipWs(SkipWs(s)) == SkipWs(s)
  {
    if |s| > 1 && s[0] <= ' ' {
      SkipWsTwice(s[1..]);
    }
  }

  lemma ArrayStart(body: string, depth: nat)
    requires SkipWs(body) == body
    ensures ParseItems(body, depth) == AfterItems([], ParseItems(SkipWs(body), depth))
  {
    hide ParseItems;
    match ParseItems(body, depth)
    case Fail =>
    case Read(items, rest) => assert [] + items == items;
  }

  lemma ObjectStart(body: string, depth: nat)
    requires SkipWs(body) == body
    ensures ParseMembers(body, depth) == AfterMembers([], ParseMembers(SkipWs(body), depth))
  {
    hide ParseMembers;
    match ParseMembers(body, depth)
    case Fail =>
    case Read(members, rest) => assert [] + members == members;
  }

  /** The terminator is never part of a number. */
  lemma NumericRunStops(s: string)
    requires Terminated(s)
    ensures NumericRun(s, 63) < |s|
  {
  }

  class ParseBuffer {
    const content: string
    var offset: nat
    var depth: nat

    ghost predicate Valid()
      reads this
    {
      Terminated(content) && offset < |content|
    }

    ghost function Rest(): string
      reads this
      requires Valid()
    {
      content[offset..]
    }

    constructor (text: string)
      requires NulFree(text)
      ensures Valid() && content == text + [NUL] && offset == 0 && Rest() == content && depth == 0
    {
      content := text + [NUL];
      offset := 0;
      depth := 0;
    }

    method SkipWhitespace()
      requires Valid()
      modifies this`offset
      ensures Valid() && offset >= old(offset)
      ensures Rest() == SkipWs(old(Rest()))
    {
      while offset < |content| && content[offset] <= ' '
        invariant old(offset) <= offset <= |content|
        invariant offset < |content| ==> SkipWs(content[offset..]) == SkipWs(old(Rest()))
        invariant offset == |content| ==> SkipWs(old(Rest())) == content[offset - 1..]
      {
        assert content[offset..][1..] == content[offset + 1..];
        offset := offset + 1;
      }
      if offset == |content| {
        offset := offset - 1;
      }
    }

    /** Whether the terminator comes next. */
    method AtEnd() returns (end: bool)
      requires Valid()
      ensures Rest() != "" && (end <==> Rest()[0] == NUL)
    {
      end := content[offset] == NUL;
    }

    method SkipUtf8Bom()
      requires Valid() && offset == 0
      modifies this`offset
      ensures Valid() && Rest() == SkipBom(old(Rest()))
    {
      if offset + 4 < |content| && Begins(content[offset..], BOM) {
        offset := offset + 3;
      }
    }

    /** Copies at most 63 numeric characters, replacing nothing in the C locale. */
    method CopyNumeric(numberString: array<char>) returns (i: nat)
      requires Valid() && numberString.Length == 64
      modifies numberString
      ensures i == NumericRun(Rest(), 63)
      ensures numberString[..i] == Rest()[..i]
    {
      i := 0;
      ghost var s := Rest();
      while i < 63 && offset + i < |content| && IsNumeric(content[offset + i])
        invariant 0 <= i <= 63 && i <= |s|
        invariant numberString[..i] == s[..i]
        invariant NumericRun(s, 63) == i + NumericRun(s[i..], 63 - i)
      {
        assert s[i] == content[offset + i] && s[i..][1..] == s[i + 1..];
        numberString[i] := content[offset + i];
        i := i + 1;
      }
      assert i < |s| ==> s[i] == content[offset + i];
    }

    method ParseNumber() returns (r: Option<Json>)
      requires Valid()
      modifies this`offset
      ensures match JsonText.ParseNumber(old(Rest()))
              case Fail => r == None
              case Read(item, rest) => r == Some(item) && Valid() && Rest() == rest
    {
      hide NumericRun, StrtodLen;
      var numberString := new char[64];
      var i := CopyNumeric(numberString);
      ghost var s := Rest();
      var n := StrtodLen(numberString[..i]);
      if n == 0 {
        return None;
      }
      assert numberString[..n] == numberString[..i][..n] == s[..n];
      NumericRunStops(s);
      offset := offset + n;
      return Some(Number(numberString[..n]));
    }

    method ParseString() returns (r: Option<string>)
      requires Valid()
      modifies this`offset
      ensures match JsonText.ParseString(old(Rest()))
              case Fail => r == None
              case Read(value, rest) => r == Some(value) && Valid() && Rest() == rest
    {
      hide CloseQuote, Unescape, Stops, Aligned, CString;
      ghost var s := Rest();
      if content[offset] != QUOTE {
        return None;
      }
      assert s[1..] == content[offset + 1..];
      var end, skipped := Measure(content, offset + 1);
      if end.None? {
        return None;
      }
      var allocationLength := end.value - offset - skipped;
      var output := new char[allocationLength + 1];
      var length := UnescapeInto(content, offset + 1, end.value, output);
      if length.None? {
        return None;
      }
      output[length.value] := NUL;
      r := Some(CString(output[..length.value]));
      assert content[end.value] == QUOTE;
      assert content[end.value + 1..] == s[end.value - offset + 1..];
      offset := end.value + 1;
    }

    /** parse_value: fills a new item. */
    method ParseValue(item: Node) returns (ok: bool)
      requires Valid() && Blank(item)
      modifies this, item`payload, item`child, item`kids, item`repr
      ensures match JsonText.ParseValue(old(Rest()), old(depth))
              case Fail => !ok
              case Read(v, rest) => ok && Represents(item, v) && Valid() && Rest() == rest && depth == old(depth)
      ensures ok ==> fresh(item.repr - {item})
      decreases |content| - offset, 4
    {
      hide JsonText.ParseString, JsonText.ParseNumber, JsonText.ParseArray, JsonText.ParseObject, Represents;
      ghost var s := Rest();
      if Begins(content[offset..], "null") {
        offset := offset + 4;
        item.payload := NullNode;
        LeafStands(item, Null);
        return true;
      }
      if Begins(content[offset..], "false") {
        offset := offset + 5;
        item.payload := FalseNode;
        LeafStands(item, False);
        return true;
      }
      if Begins(content[offset..], "true") {
        offset := offset + 4;
        item.payload := TrueNode;
        LeafStands(item, True);
        return true;
      }
      if content[offset] == QUOTE {
        var value := ParseString();
        if value.None? {
          return false;
        }
        item.payload := StringNode(value.value);
        LeafStands(item, Str(value.value));
        return true;
      }
      if content[offset] == '-' || IsDigit(content[offset]) {
        var number := ParseNumber();
        if number.None? {
          return false;
        }
        NumberRead(s);
        item.payload := NumberNode(number.value.token);
        LeafStands(item, number.value);
        return true;
      }
      if content[offset] == '[' {
        ok := ParseArray(item);
        return;
      }
      if content[offset] == '{' {
        ok := ParseObject(item);
        return;
      }
      return false;
    }

    /** Steps over one character and reads the value behind it, blanks around it included. */
    method ParseElement(item: Node) returns (ok: bool, ghost v: Json)
      requires Terminated(content) && offset + 1 < |content| && Blank(item)
      modifies this, item`payload, item`child, item`kids, item`repr
      ensures match JsonText.ParseValue(SkipWs(content[old(offset) + 1..]), old(depth))
              case Fail => !ok
              case Read(x, after) => ok && v == x && Valid() && Rest() == SkipWs(after) && depth == old(depth)
      ensures ok ==> Represents(item, v) && fresh(item.repr - {item}) && offset > old(offset)
      decreases |content| - offset, 0
    {
      hide JsonText.ParseValue, SkipWs, Represents;
      offset := offset + 1;
      SkipWhitespace();
      ghost var r := JsonText.ParseValue(Rest(), depth);
      v := if r.Read? then r.value else Null;
      ok := ParseValue(item);
      if ok {
        SkipWhitespace();
      }
    }

    /** Reads comma-separated elements, the first one at the character after the cursor, into
        a list below item. */
    method ParseElements(item: Node, ghost body: string) returns (ok: bool, ghost items: seq<Json>)
      requires Terminated(content) && offset + 1 < |content| && Blank(item)
      requires content[offset + 1..] == body && SkipWs(body) == body
      modifies this, item`child, item`kids, item`repr
      ensures match JsonText.ParseItems(body, old(depth))
              case Fail => !ok
              case Read(read, rest) => ok && items == read && Valid() && Rest() == rest && depth == old(depth)
      ensures ok ==> Copied(item, item.kids, items) && fresh(item.repr - {item})
      decreases |content| - offset, 2
    {
      hide JsonText.ParseValue, JsonText.ParseItems, SkipWs, Represents, Copied;
      items := [];
      var tail: Node? := null;
      ArrayStart(body, depth);
      NothingCopied(item);
      while true
        invariant old(offset) <= offset && offset + 1 < |content| && depth == old(depth)
        invariant JsonText.ParseItems(body, depth) ==
                  AfterItems(items, JsonText.ParseItems(SkipWs(content[offset + 1..]), depth))
        invariant Built(item, tail, items) && fresh(item.repr - {item})
        decreases |content| - offset
      {
        ItemsUnfold(items, SkipWs(content[offset + 1..]), depth);
        var next := new Node(NullNode, None);
        ghost var v;
        ok, v := ParseElement(next);
        if !ok {
          return;
        }
        Link(item, tail, next, items, v);
        tail := next;
        items := items + [v];
        assert Rest()[1..] == content[offset + 1..];
        if content[offset] != ',' {
          break;
        }
      }
      if content[offset] != ']' {
        return false, items;
      }
      offset := offset + 1;
      return true, items;
    }

    /** How arrays and objects begin: one level deeper, behind the bracket and the blanks. */
    method EnterList() returns (ok: bool, ghost body: string)
      requires Valid() && content[offset] != NUL
      modifies this
      ensures ok <==> old(depth) < NESTING_LIMIT
      ensures ok ==> Valid() && depth == old(depth) + 1 && offset > old(offset)
      ensures ok ==> body == SkipWs(old(Rest())[1..]) == SkipWs(body) && |body| > 0
      ensures ok ==> content[offset..] == body && content[offset] == body[0] && content[offset + 1..] == body[1..]
    {
      hide SkipWs;
      if depth >= NESTING_LIMIT {
        return false, "";
      }
      depth := depth + 1;
      assert Rest()[1..] == content[offset + 1..];
      offset := offset + 1;
      SkipWsTwice(Rest());
      SkipWhitespace();
      body := Rest();
      assert body[0] == content[offset] && body[1..] == content[offset + 1..];
      return true, body;
    }

    method ParseArray(item: Node) returns (ok: bool)
      requires Valid() && content[offset] == '[' && Blank(item)
      modifies this, item`payload, item`child, item`kids, item`repr
      ensures match JsonText.ParseArray(old(Rest()), old(depth))
              case Fail => !ok
              case Read(v, rest) => ok && Represents(item, v) && Valid() && Rest() == rest && depth == old(depth)
      ensures ok ==> fresh(item.repr - {item})
      decreases |content| - offset, 3
    {
      hide JsonText.ParseValue, JsonText.ParseItems, SkipWs, Terminated, Represents, Copied;
      ghost var body;
      ok, body := EnterList();
      if !ok {
        return;
      }
      if content[offset] == ']' {
        NotLast(content, offset);
        depth := depth - 1;
        item.payload := ArrayNode;
        NothingCopied(item);
        ArrayStands(item, []);
        offset := offset + 1;
        return true;
      }
      offset := offset - 1;
      assert content[offset + 1..] == body;
      ghost var items;
      ok, items := ParseElements(item, body);
      if !ok {
        return;
      }
      depth := depth - 1;
      item.payload := ArrayNode;
      ArrayStands(item, items);
    }

    /** Steps over one character and reads the member behind it, blanks around it included. */
    method ParseEntry(item: Node) returns (ok: bool, ghost m: Member)
      requires Terminated(content) && offset + 1 < |content| && Blank(item)
      modifies this, item`payload, item`key, item`child, item`kids, item`repr
      ensures match JsonText.ParseMember(SkipWs(content[old(offset) + 1..]), old(depth))
              case Fail => !ok
              case Read(x, after) => ok && m == x && Valid() && Rest() == SkipWs(after) && depth == old(depth)
      ensures ok ==> Represents(item, m.value) && item.key == Some(m.key)
      ensures ok ==> fresh(item.repr - {item}) && offset > old(offset)
      decreases |content| - offset, 1
    {
      hide JsonText.ParseValue, JsonText.ParseString, SkipWs, Represents;
      m := Member("", Null);
      offset := offset + 1;
      SkipWhitespace();
      var key := ParseString();
      if key.None? {
        return false, m;
      }
      SkipWhitespace();
      item.key := key;
      assert Rest()[1..] == content[offset + 1..];
      if content[offset] != ':' {
        return false, m;
      }
      ghost var v;
      ok, v := ParseElement(item);
      m := Member(key.value, v);
    }

    method ParseEntries(item: Node, ghost body: string) returns (ok: bool, ghost members: seq<Member>)
      requires Terminated(content) && offset + 1 < |content| && Blank(item)
      requires content[offset + 1..] == body && SkipWs(body) == body
      modifies this, item`child, item`kids, item`repr
      ensures match JsonText.ParseMembers(body, old(depth))
              case Fail => !ok
              case Read(read, rest) => ok && members == read && Valid() && Rest() == rest && depth == old(depth)
      ensures ok ==> BuiltMembers(item, At(item.kids, |item.kids| - 1), members) && fresh(item.repr - {item})
      decreases |content| - offset, 2
    {
      hide JsonText.ParseMember, JsonText.ParseMembers, SkipWs, Represents, BuiltMembers;
      members := [];
      var tail: Node? := null;
      ObjectStart(body, depth);
      NothingBuilt(item);
      while true
        invariant old(offset) <= offset && offset + 1 < |content| && depth == old(depth)
        invariant JsonText.ParseMembers(body, depth) ==
                  AfterMembers(members, JsonText.ParseMembers(SkipWs(content[offset + 1..]), depth))
        invariant BuiltMembers(item, tail, members) && fresh(item.repr - {item})
        invariant Nodes(item.kids) <= item.repr - {item} && tail == At(item.kids, |item.kids| - 1)
        decreases |content| - offset
      {
        MembersUnfold(members, SkipWs(content[offset + 1..]), depth);
        var next := new Node(NullNode, None);
        ghost var m;
        ok, m := ParseEntry(next);
        if !ok {
          return;
        }
        LinkMember(item, tail, next, members, m);
        tail := next;
        members := members + [m];
        assert Rest()[1..] == content[offset + 1..];
        if content[offset] != ',' {
          break;
        }
      }
      if content[offset] != '}' {
        return false, members;
      }
      offset := offset + 1;
      return true, members;
    }

    method ParseObject(item: Node) returns (ok: bool)
      requires Valid() && content[offset] == '{' && Blank(item)
      modifies this, item`payload, item`child, item`kids, item`repr
      ensures match JsonText.ParseObject(old(Rest()), old(depth))
              case Fail => !ok
              case Read(v, rest) => ok && Represents(item, v) && Valid() && Rest() == rest && depth == old(depth)
      ensures ok ==> fresh(item.repr - {item})
      decreases |content| - offset, 3
    {
      hide JsonText.ParseMembers, SkipWs, Terminated, Represents, BuiltMembers;
      ghost var body;
      ok, body := EnterList();
      if !ok {
        return;
      }
      if content[offset] == '}' {
        NotLast(content, offset);
        depth := depth - 1;
        item.payload := ObjectNode;
        NothingBuilt(item);
        ObjectStands(item, null, []);
        offset := offset + 1;
        return true;
      }
      offset := offset - 1;
      assert content[offset + 1..] == body;
      ghost var members;
      ok, members := ParseEntries(item, body);
      if !ok {
        return;
      }
      depth := depth - 1;
      item.payload := ObjectNode;
      ObjectStands(item, At(item.kids, |item.kids| - 1), members);
    }
  }

  lemma NotLast(s: string, i: nat)
    requires Terminated(s) && i < |s| && s[i] != NUL
    ensures i + 1 < |s|
  {
  }

  lemma NumberRead(s: string)
    ensures JsonText.ParseNumber(s).Read? ==> JsonText.ParseNumber(s).value.Number?
  {
  }

  lemma TextParsed(text: string)
    ensures ParseText(text) ==
            match ParseValue(SkipWs(SkipBom(text + [NUL])), 0)
            case Fail => None
            case Read(value, rest) =>
              var end := SkipWs(rest);
              if end != "" && end[0] == NUL then Some(value) else None
  {
    hide ParseValue, SkipWs, SkipBom;
  }

  /** Reads a whole text into a tree; with requireNullTerminated nothing but blanks may
      follow. */
  method ParseWithOpts(text: string, requireNullTerminated: bool) returns (r: Node?)
    requires NulFree(text)
    ensures requireNullTerminated ==> match ParseText(text) case None => r == null case Some(v) => Stands(r, v)
    ensures !requireNullTerminated ==>
              match ParseValue(SkipWs(SkipBom(text + [NUL])), 0)
              case Fail => r == null
              case Read(v, _) => Stands(r, v)
    ensures r != null ==> fresh(r.repr)
  {
    TextParsed(text);
    hide ParseValue, SkipWs, SkipBom, Terminated, NulFree, ParseText, ParseBuffer.Rest, Represents;
    var buffer := new ParseBuffer(text);
    var item := new Node(NullNode, None);
    buffer.SkipUtf8Bom();
    buffer.SkipWhitespace();
    assert buffer.Rest() == SkipWs(SkipBom(text + [NUL]));
    var ok := buffer.ParseValue(item);
    if !ok {
      return null;
    }
    if requireNullTerminated {
      buffer.SkipWhitespace();
      var end := buffer.AtEnd();
      if !end {
        return null;
      }
    }
    return item;
  }
}
