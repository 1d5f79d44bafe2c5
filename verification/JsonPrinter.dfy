/** The printer over a growable or caller-supplied buffer whose offset is repaired
    lazily by looking for the terminator. */
module JsonPrinter {
  import opened Basics
  import opened JsonText
  import opened JsonRender
  import opened JsonTree

  const INT_MAX: nat := 0x7FFF_FFFF

  class PrintBuffer {
    var buffer: array?<char>
    var length: nat
    var offset: nat
    var depth: nat
    const noalloc: bool
    const format: bool
    const hasRealloc: bool
    const heap: bool

    ghost predicate Valid()
      reads this`buffer, this`length
    {
      && (buffer != null ==> length <= buffer.Length && (noalloc || 0 < length == buffer.Length))
      && (noalloc ==> buffer != null) && length <= INT_MAX
    }

    /** Nothing but a lack of room makes printing fail: no allocation is made, or memory
        can be had. */
    predicate Sure() {
      noalloc || heap
    }

    /** The room there is: the caller's, or what the length's type allows. */
    function Limit(): nat
      reads this`length
    {
      if noalloc then length else INT_MAX
    }

    /** The buffer can take more text behind its offset. */
    ghost predicate Ready()
      reads this`buffer, this`length, this`offset
    {
      Valid() && buffer != null && offset <= length && (noalloc || offset < length)
    }

    /** The text that everything up to the offset spells. */
    ghost function Done(): (s: string)
      reads this`buffer, this`length, this`offset, buffer
      requires Ready()
      ensures |s| == offset
    {
      buffer[..offset]
    }

    /** text stands behind done, followed by the terminator; the offset is anywhere in it. */
    ghost predicate Printed(done: string, text: string)
      reads this`buffer, this`length, this`offset, buffer
    {
      && Ready() && |done + text| < length
      && |done| <= offset <= |done + text|
      && buffer[..|done + text|] == done + text
      && buffer[|done + text|] == NUL
    }

    /** A caller's buffer stays in place and is not written beyond its length. */
    twostate predicate Kept()
      requires old(Ready())
      reads this, buffer
    {
      && Valid()
      && (buffer == old(buffer) || buffer == null || fresh(buffer))
      && (noalloc ==>
            && buffer == old(buffer) && length == old(length)
            && forall i | length <= i < buffer.Length :: buffer[i] == old(buffer[i]))
    }

    constructor (size: nat, format: bool, hasRealloc: bool, heap: bool)
      requires 0 < size <= INT_MAX
      ensures Ready() && fresh(buffer) && Done() == "" && depth == 0
      ensures !noalloc && this.format == format && this.heap == heap
    {
      buffer := new char[size];
      length := size;
      offset := 0;
      depth := 0;
      noalloc := false;
      this.format := format;
      this.hasRealloc := hasRealloc;
      this.heap := heap;
    }

    constructor Preallocated(buf: array<char>, len: nat, format: bool)
      requires len <= buf.Length && len <= INT_MAX
      ensures Ready() && buffer == buf && length == len && Done() == "" && depth == 0
      ensures noalloc && this.format == format
    {
      buffer := buf;
      length := len;
      offset := 0;
      depth := 0;
      noalloc := true;
      this.format := format;
      hasRealloc := false;
      heap := false;
    }

    /** Makes room for needed characters and one more at the offset. */
    method Ensure(needed: nat) returns (ok: bool)
      requires Ready()
      modifies this
      ensures Kept() && offset == old(offset) && depth == old(depth)
      ensures ok ==> Ready() && offset + needed + 1 <= length && Done() == old(Done())
      ensures Sure() ==> (ok <==> offset + needed + 1 <= Limit())
    {
      if length > 0 && offset >= length {
        return false;
      }
      if needed > INT_MAX {
        return false;
      }
      var total := needed + offset + 1;
      if total <= length {
        return true;
      }
      if noalloc {
        return false;
      }
      var newsize;
      if total > INT_MAX / 2 {
        if total <= INT_MAX {
          newsize := INT_MAX;
        } else {
          return false;
        }
      } else {
        newsize := total * 2;
      }
      var failed := *;
      if failed && !heap {
        length := 0;
        buffer := null;
        return false;
      }
      var newbuffer := new char[newsize];
      var keep := if hasRealloc then length else offset + 1;
      forall i | 0 <= i < keep {
        newbuffer[i] := buffer[i];
      }
      length := newsize;
      buffer := newbuffer;
      return true;
    }

    /** Text printed behind already printed text. */
    lemma PrintedJoin(done: string, a: string, b: string)
      requires Printed(done + a, b)
      ensures Printed(done, a + b)
    {
      assert done + a + b == done + (a + b);
    }

    /** Moves the offset onto the terminator. */
    method UpdateOffset(ghost done: string, ghost text: string)
      requires Printed(done, text) && NulFree(text)
      modifies this`offset
      ensures Ready() && Done() == done + text && offset < length
    {
      ghost var all := done + text;
      assert forall i | |done| <= i < |all| :: buffer[..|all|][i] == text[i - |done|] != NUL;
      while buffer[offset] != NUL
        invariant |done| <= offset <= |all|
        invariant forall i | |done| <= i < |all| :: buffer[i] != NUL
        decreases |all| - offset
      {
        offset := offset + 1;
      }
      assert buffer[..offset] == buffer[..|all|][..offset];
    }

    /** Writes text at index p. */
    method WriteAt(p: nat, text: string)
      requires Ready() && p + |text| <= length
      modifies buffer
      ensures buffer[p..p + |text|] == text
      ensures forall i | 0 <= i < p || p + |text| <= i < buffer.Length :: buffer[i] == old(buffer[i])
    {
      forall i | 0 <= i < |text| {
        buffer[p + i] := text[i];
      }
    }

    /** Reserves room for needed characters, writes text and moves past it. */
    method Append(text: string, needed: nat) returns (ok: bool)
      requires Ready() && |text| <= needed
      modifies this, buffer
      ensures Kept() && depth == old(depth)
      ensures Sure() ==> (ok <==> old(offset) + needed + 1 <= Limit())
      ensures ok ==> Ready() && Done() == old(Done()) + text
    {
      ok := Ensure(needed);
      if ok {
        ghost var done := Done();
        WriteAt(offset, text);
        assert buffer[..offset + |text|] == buffer[..offset] + buffer[offset..offset + |text|];
        assert buffer[..offset] == done;
        offset := offset + |text|;
      }
    }

    /** Reserves room, writes text and its terminator, and moves onto that on request. */
    method Put(text: string, needed: nat, advance: bool) returns (ok: bool)
      requires Ready() && |text| <= needed
      modifies this, buffer
      ensures Kept() && depth == old(depth)
      ensures Sure() ==> (ok <==> old(offset) + needed + 1 <= Limit())
      ensures ok ==> Printed(old(Done()), text)
      ensures ok && advance ==> Done() == old(Done()) + text
    {
      ok := Ensure(needed);
      if ok {
        ghost var done := Done();
        WriteAt(offset, text + [NUL]);
        ghost var end := offset + |text|;
        assert buffer[..offset] == done;
        assert buffer[offset..end + 1] == text + [NUL] && buffer[end] == (text + [NUL])[|text|];
        assert buffer[offset..end] == buffer[offset..end + 1][..|text|];
        assert buffer[..end] == buffer[..offset] + buffer[offset..end];
        if advance {
          offset := offset + |text|;
        }
      }
    }

    /** Additional characters that escaping needs. */
    method CountEscapes(input: string) returns (escapes: nat)
      requires NulFree(input)
      ensures |Escape(input)| == |input| + escapes
    {
      escapes := 0;
      for i := 0 to |input|
        invariant |Escape(input[..i])| == i + escapes
      {
        EscapeAppend(input[..i], input[i]);
        assert input[..i + 1] == input[..i] + [input[i]];
        if EscapeLetter(input[i]).Some? {
          escapes := escapes + 1;
        } else if input[i] < ' ' {
          escapes := escapes + 5;
        }
      }
      assert input[..|input|] == input;
    }

    /** Writes one character's escape at p; sprintf leaves a terminator behind its digits. */
    method WriteEscape(c: char, p: nat) returns (next: nat)
      requires Ready() && c != NUL && offset < p && p + |EscapeChar(c)| < length
      modifies buffer
      ensures next == p + |EscapeChar(c)|
      ensures buffer[p..next] == EscapeChar(c)
      ensures forall i | 0 <= i < p || next < i < buffer.Length :: buffer[i] == old(buffer[i])
    {
      hide EscapeLetter, LowerHex;
      if c > '\U{1f}' && c != QUOTE && c != BACKSLASH {
        WriteAt(p, [c]);
        return p + 1;
      }
      match EscapeLetter(c)
      case Some(letter) =>
        WriteAt(p, [BACKSLASH, letter]);
        return p + 2;
      case None =>
        var code := EscapeChar(c);
        WriteAt(p, code + [NUL]);
        assert buffer[p..p + 6] == buffer[p..p + 7][..6] == code;
        return p + 6;
    }

    method WriteEscaped(input: string)
      requires Ready() && NulFree(input) && offset + |Escape(input)| + 4 <= length
      modifies buffer
      ensures buffer[offset + 1..offset + 1 + |Escape(input)|] == Escape(input)
      ensures forall i | 0 <= i < offset || length <= i < buffer.Length :: buffer[i] == old(buffer[i])
    {
      hide Escape, EscapeChar;
      var p := offset + 1;
      assert Escape(input[..0]) == "" by { EscapeNothing(); }
      for i := 0 to |input|
        invariant p == offset + 1 + |Escape(input[..i])| <= offset + 1 + |Escape(input)|
        invariant buffer[offset + 1..p] == Escape(input[..i])
        invariant forall i | 0 <= i < offset || length <= i < buffer.Length :: buffer[i] == old(buffer[i])
      {
        EscapeNext(input, i);
        ghost var before := buffer[offset + 1..p];
        var q := WriteEscape(input[i], p);
        assert buffer[offset + 1..p] == before;
        assert buffer[offset + 1..q] == buffer[offset + 1..p] + buffer[p..q];
        p := q;
      }
      assert input[..|input|] == input;
    }

    lemma EscapeNothing()
      ensures Escape("") == ""
    {
    }

    /** Copies the string, or its escaped form, behind the opening quote's place. */
    method WriteContent(input: string, escapes: nat)
      requires Ready() && NulFree(input) && |Escape(input)| == |input| + escapes
      requires offset + |Escape(input)| + 4 <= length
      modifies buffer
      ensures buffer[offset + 1..offset + 1 + |Escape(input)|] == Escape(input)
      ensures forall i | 0 <= i < offset || length <= i < buffer.Length :: buffer[i] == old(buffer[i])
    {
      if escapes == 0 {
        EscapeLength(input);
        forall i | 0 <= i < |input| {
          buffer[offset + 1 + i] := input[i];
        }
      } else {
        WriteEscaped(input);
      }
    }

    /** The quotes around an escaped string and the terminator behind it. */
    method CloseString(ghost text: string, outputLength: nat)
      requires Ready() && |text| == outputLength && offset + outputLength + 2 < length
      requires buffer[offset + 1..offset + 1 + outputLength] == text
      modifies buffer
      ensures Printed(old(Done()), [QUOTE] + text + [QUOTE])
      ensures forall i | length <= i < buffer.Length :: buffer[i] == old(buffer[i])
    {
      ghost var done := Done();
      buffer[offset] := QUOTE;
      buffer[offset + outputLength + 1] := QUOTE;
      buffer[offset + outputLength + 2] := NUL;
      assert buffer[..offset] == done;
      assert buffer[offset + 1..offset + 1 + outputLength] == text;
      assert buffer[..offset + outputLength + 2]
          == buffer[..offset] + [buffer[offset]] + buffer[offset + 1..offset + 1 + outputLength] + [QUOTE];
    }

    /** print_string_ptr: counts the escapes, reserves, then copies or escapes. */
    method PrintStringPtr(input: string) returns (ok: bool)
      requires Ready() && NulFree(input)
      modifies this, buffer
      ensures Kept() && depth == old(depth)
      ensures ok ==> Printed(old(Done()), Quoted(input))
      ensures Sure() ==> (ok <==> old(offset) + |Quoted(input)| + 2 <= Limit())
    {
      hide Escape;
      var escapes := CountEscapes(input);
      var outputLength := |input| + escapes;
      ok := Ensure(outputLength + 3);
      if !ok {
        return;
      }
      ghost var done := Done();
      WriteContent(input, escapes);
      assert Done() == done;
      CloseString(Escape(input), outputLength);
    }

    method PrintValue(item: Node, ghost v: Json) returns (ok: bool)
      requires Ready() && Represents(item, v) && Printable(v)
      modifies this, buffer
      ensures Kept()
      ensures ok ==> Printed(old(Done()), Render(v, format, depth)) && depth == old(depth)
      ensures Sure() ==> (ok <==> old(offset) + |Render(v, format, old(depth))| + 2 <= Limit())
      decreases v, 3
    {
      Kids(item, v);
      hide Represents;
      match item.payload
      case NullNode =>
        ok := Put("null", 5, false);
      case FalseNode =>
        ok := Put("false", 6, false);
      case TrueNode =>
        ok := Put("true", 5, false);
      case NumberNode(token) =>
        ok := Put(token, |token| + 1, true);
      case StringNode(value) =>
        ok := PrintStringPtr(value);
      case ArrayNode =>
        ok := PrintArray(item, v);
      case ObjectNode =>
        ok := PrintObject(item, v);
    }

    /** Prints one element and the comma behind it, when another one follows. */
    method PrintElement(item: Node, ghost v: Json) returns (ok: bool)
      requires Ready() && Represents(item, v) && Printable(v)
      modifies this, buffer
      ensures Kept()
      ensures ok ==> Ready() && depth == old(depth)
      ensures var text := Render(v, format, old(depth)) + ElementTail(item.next != null, format);
              && (ok ==> Done() == old(Done()) + text)
              && (Sure() && !ok ==> old(offset) + |text| + 2 > Limit())
      decreases v, 4
    {
      hide Render, Represents;
      ghost var done := Done();
      ghost var text := Render(v, format, depth);
      ok := PrintValue(item, v);
      if !ok {
        return;
      }
      RenderNulFree(v, format, depth);
      UpdateOffset(done, text);
      if item.next != null {
        var separator := ElementTail(true, format);
        ok := Put(separator, |separator| + 1, true);
      }
    }

    method PrintElements(item: Node, ghost v: Json) returns (ok: bool)
      requires Ready() && Represents(item, v) && v.Array? && PrintableItems(v.items)
      modifies this, buffer
      ensures Kept()
      ensures ok ==> Ready() && depth == old(depth)
      ensures ok ==> Done() == old(Done()) + RenderItems(v.items, format, depth)
      ensures Sure() && !ok ==> old(offset) + |RenderItems(v.items, format, old(depth))| + 2 > Limit()
      decreases v, 0
    {
      hide RenderItems, Render, ElementTail, Printable, PrintableItems, Represents, Linked, Tagged;
      ghost var items, kids := v.items, item.kids;
      ghost var all := Done() + RenderItems(items, format, depth);
      assert items[0..] == items;
      Kids(item, v);
      var child := item.child;
      ghost var i := 0;
      while child != null
        invariant 0 <= i <= |items| == |kids| && item.kids == kids && child == At(kids, i)
        invariant Kept() && Ready() && depth == old(depth) && Represents(item, v)
        invariant PrintableItems(items[i..])
        invariant Done() + RenderItems(items[i..], format, depth) == all
        decreases |items| - i
      {
        Child(item, v, i);
        ItemsUnfold(items, i, format, depth);
        ok := PrintElement(child, items[i]);
        if !ok {
          return;
        }
        child := child.next;
        i := i + 1;
      }
      ItemsEnd(items, format, depth);
      return true;
    }

    /** The bracket and the elements, one nesting level deeper. */
    method PrintArrayBody(item: Node, ghost v: Json) returns (ok: bool)
      requires Ready() && Represents(item, v) && v.Array? && PrintableItems(v.items)
      modifies this, buffer
      ensures Kept()
      ensures ok ==> Ready() && depth == old(depth) + 1
      ensures ok ==> Done() == old(Done()) + ("[" + RenderItems(v.items, format, depth))
      ensures Sure() && !ok ==> old(offset) + |RenderItems(v.items, format, old(depth) + 1)| + 3 > Limit()
      decreases v, 1
    {
      hide RenderItems, Represents, PrintableItems;
      ghost var done := Done();
      ok := Append("[", 1);
      if ok {
        depth := depth + 1;
        ok := PrintElements(item, v);
        assert done + "[" + RenderItems(v.items, format, old(depth) + 1)
            == done + ("[" + RenderItems(v.items, format, old(depth) + 1));
      }
    }

    method PrintArray(item: Node, ghost v: Json) returns (ok: bool)
      requires Ready() && Represents(item, v) && v.Array? && PrintableItems(v.items)
      modifies this, buffer
      ensures Kept()
      ensures ok ==> Printed(old(Done()), Render(v, format, depth)) && depth == old(depth)
      ensures Sure() ==> (ok <==> old(offset) + |Render(v, format, old(depth))| + 2 <= Limit())
      decreases v, 2
    {
      hide RenderItems, Represents, PrintableItems, Printed;
      ghost var done := Done();
      ok := PrintArrayBody(item, v);
      if ok {
        ok := Put("]", 2, false);
        depth := depth - 1;
        if ok {
          PrintedJoin(done, "[" + RenderItems(v.items, format, depth + 1), "]");
        }
      }
    }

    method PrintIndent() returns (ok: bool)
      requires Ready()
      modifies this, buffer
      ensures Kept() && depth == old(depth)
      ensures ok ==> Ready() && Done() == old(Done()) + Indent(format, depth)
      ensures Sure() && !ok ==> old(offset) + |Indent(format, depth)| + 1 > Limit()
    {
      if format {
        ok := Append(Indent(format, depth), depth);
      } else {
        ok := true;
        assert Done() + Indent(format, depth) == Done();
      }
    }

    /** The indentation and the key in front of a member's value. */
    method PrintKey(key: string) returns (ok: bool)
      requires Ready() && NulFree(key)
      modifies this, buffer
      ensures Kept() && depth == old(depth)
      ensures ok ==> Ready() && Done() == old(Done()) + MemberLead(key, format, depth)
      ensures Sure() && !ok ==> old(offset) + |MemberLead(key, format, depth)| + 2 > Limit()
    {
      hide Quoted, Indent;
      ghost var done := Done();
      ghost var indent := Indent(format, depth);
      ok := PrintIndent();
      if !ok {
        return;
      }
      ok := PrintStringPtr(key);
      if !ok {
        return;
      }
      QuotedNulFree(key);
      UpdateOffset(done + indent, Quoted(key));
      var colon := Colon(format);
      ok := Append(colon, |colon|);
      assert done + indent + Quoted(key) + colon == done + (indent + Quoted(key) + colon);
    }

    method PrintMember(item: Node, ghost m: Member) returns (ok: bool)
      requires Ready() && Represents(item, m.value) && item.key == Some(m.key) && NulFree(m.key) && Printable(m.value)
      modifies this, buffer
      ensures Kept()
      ensures ok ==> Ready() && depth == old(depth)
      ensures ok ==> Done() == old(Done()) + MemberText(m, item.next != null, format, depth)
      ensures Sure() && !ok ==> old(offset) + |MemberText(m, item.next != null, format, old(depth))| + 2 > Limit()
      decreases m.value, 4
    {
      hide Render, MemberLead, MemberTail, Printable;
      ghost var done := Done();
      ghost var lead := MemberLead(m.key, format, depth);
      ghost var text := Render(m.value, format, depth);
      ok := PrintKey(item.key.value);
      if !ok {
        return;
      }
      ok := PrintValue(item, m.value);
      if !ok {
        return;
      }
      RenderNulFree(m.value, format, depth);
      UpdateOffset(done + lead, text);
      var tail := MemberTail(item.next != null, format);
      ok := Put(tail, |tail| + 1, true);
      assert done + lead + text + tail == done + (lead + text + tail);
    }

    method PrintEntries(item: Node, ghost v: Json) returns (ok: bool)
      requires Ready() && Represents(item, v) && v.Object? && PrintableMembers(v.members)
      modifies this, buffer
      ensures Kept()
      ensures ok ==> Ready() && depth == old(depth)
      ensures ok ==> Done() == old(Done()) + RenderMembers(v.members, format, depth)
      ensures Sure() && !ok ==> old(offset) + |RenderMembers(v.members, format, old(depth))| + 2 > Limit()
      decreases v, 0
    {
      hide RenderMembers, MemberText, Printable, PrintableMembers, Represents, Linked, Tagged;
      ghost var members, kids := v.members, item.kids;
      ghost var all := Done() + RenderMembers(members, format, depth);
      assert members[0..] == members;
      Kids(item, v);
      MembersAsItems(members);
      var child := item.child;
      ghost var i := 0;
      while child != null
        invariant 0 <= i <= |members| == |kids| && item.kids == kids && child == At(kids, i)
        invariant Kept() && Ready() && depth == old(depth) && Represents(item, v)
        invariant PrintableMembers(members[i..])
        invariant Done() + RenderMembers(members[i..], format, depth) == all
        decreases |members| - i
      {
        Child(item, v, i);
        MembersUnfold(members, i, format, depth);
        ok := PrintMember(child, members[i]);
        if !ok {
          return;
        }
        child := child.next;
        i := i + 1;
      }
      MembersEnd(members, format, depth);
      return true;
    }

    /** The brace and the members, one nesting level deeper. */
    method PrintObjectBody(item: Node, ghost v: Json) returns (ok: bool)
      requires Ready() && Represents(item, v) && v.Object? && PrintableMembers(v.members)
      modifies this, buffer
      ensures Kept()
      ensures ok ==> Ready() && depth == old(depth) + 1
      ensures ok ==> Done() == old(Done()) + (OpenBrace(format) + RenderMembers(v.members, format, depth))
      ensures Sure() && !ok ==>
                old(offset) + |OpenBrace(format) + RenderMembers(v.members, format, old(depth) + 1)| + 2 > Limit()
      decreases v, 1
    {
      hide RenderMembers, Represents, PrintableMembers, OpenBrace;
      ghost var done := Done();
      ghost var inner := RenderMembers(v.members, format, depth + 1);
      var open := OpenBrace(format);
      ok := Append(open, |open| + 1);
      if ok {
        depth := depth + 1;
        ok := PrintEntries(item, v);
        assert done + open + inner == done + (open + inner);
      }
    }

    method PrintObject(item: Node, ghost v: Json) returns (ok: bool)
      requires Ready() && Represents(item, v) && v.Object? && PrintableMembers(v.members)
      modifies this, buffer
      ensures Kept()
      ensures ok ==> Printed(old(Done()), Render(v, format, depth)) && depth == old(depth)
      ensures Sure() ==> (ok <==> old(offset) + |Render(v, format, old(depth))| + 2 <= Limit())
      decreases v, 2
    {
      hide RenderMembers, Represents, PrintableMembers, Printed, OpenBrace;
      ghost var done := Done();
      ok := PrintObjectBody(item, v);
      if ok {
        var close := CloseBrace(format, depth - 1);
        ok := Put(close, if format then depth + 1 else 2, false);
        depth := depth - 1;
        if ok {
          PrintedJoin(done, OpenBrace(format) + RenderMembers(v.members, format, depth + 1), close);
        }
      }
    }
  }

  lemma QuotedNulFree(s: string)
    requires NulFree(s)
    ensures NulFree(Quoted(s))
  {
    EscapeNulFree(s);
  }

  lemma MembersUnfold(members: seq<Member>, i: nat, format: bool, depth: nat)
    requires i < |members| && PrintableMembers(members[i..])
    ensures NulFree(members[i].key) && Printable(members[i].value) && PrintableMembers(members[i + 1..])
    ensures RenderMembers(members[i..], format, depth)
         == MemberText(members[i], i + 1 < |members|, format, depth) + RenderMembers(members[i + 1..], format, depth)
  {
    hide MemberText;
    assert members[i..][0] == members[i] && members[i..][1..] == members[i + 1..];
  }

  lemma MembersEnd(members: seq<Member>, format: bool, depth: nat)
    ensures RenderMembers(members[|members|..], format, depth) == ""
  {
  }

  function ElementTail(more: bool, format: bool): string {
    When(more, "," + When(format, " "))
  }

  lemma ItemsUnfold(items: seq<Json>, i: nat, format: bool, depth: nat)
    requires i < |items| && PrintableItems(items[i..])
    ensures Printable(items[i]) && PrintableItems(items[i + 1..])
    ensures RenderItems(items[i..], format, depth)
         == (Render(items[i], format, depth) + ElementTail(i + 1 < |items|, format))
            + RenderItems(items[i + 1..], format, depth)
  {
    assert items[i..][0] == items[i] && items[i..][1..] == items[i + 1..];
  }

  lemma ItemsEnd(items: seq<Json>, format: bool, depth: nat)
    ensures RenderItems(items[|items|..], format, depth) == ""
  {
  }

  /** cJSON_Print and cJSON_PrintUnformatted: the text is the rendering, or there is none;
      while memory can be had (heap) there is one exactly for renderings that fit an int. */
  method Print(item: Node, format: bool, hasRealloc: bool, heap: bool, ghost v: Json)
    returns (printed: Option<string>)
    requires Represents(item, v) && Printable(v)
    ensures printed.Some? ==> printed.value == Render(v, format, 0)
    ensures heap ==> (printed.Some? <==> |Render(v, format, 0)| + 2 <= INT_MAX)
  {
    hide Render, Represents;
    var buffer := new PrintBuffer(256, format, hasRealloc, heap);
    var ok := buffer.PrintValue(item, v);
    var copied := *;
    if !ok || (!copied && !heap) {
      return None;
    }
    RenderNulFree(v, format, 0);
    buffer.UpdateOffset("", Render(v, format, 0));
    return Some(buffer.buffer[..buffer.offset]);
  }

  /** cJSON_PrintPreallocated: it works exactly when two more bytes than the text fit,
      and never touches the caller's memory beyond the given length. */
  method PrintPreallocated(item: Node, buf: array<char>, len: nat, format: bool, ghost v: Json) returns (ok: bool)
    requires Represents(item, v) && Printable(v) && len <= buf.Length && len <= INT_MAX
    modifies buf
    ensures ok <==> |Render(v, format, 0)| + 2 <= len
    ensures ok ==> buf[..|Render(v, format, 0)|] == Render(v, format, 0)
    ensures ok ==> buf[|Render(v, format, 0)|] == NUL
    ensures forall i | len <= i < buf.Length :: buf[i] == old(buf[i])
  {
    hide Render, Represents;
    var p := new PrintBuffer.Preallocated(buf, len, format);
    ok := p.PrintValue(item, v);
    assert "" + Render(v, format, 0) == Render(v, format, 0);
  }
}
