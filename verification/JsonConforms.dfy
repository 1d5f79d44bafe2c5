/** What is printed is a text of the JSON grammar for the value printed. */
module JsonConforms {
  import opened Basics
  import opened JsonText
  import opened JsonRender
  import opened JsonUnicode
  import opened JsonNumbers
  import opened JsonPieces
  import opened JsonGrammar

  ghost predicate IsNumeral(token: string) {
    |token| <= 25 && exists n: Numeral :: n.Valid() && n.Text() == token
  }

  /** Values whose strings are C strings and whose numbers are numbers of the grammar. */
  ghost predicate Conforms(v: Json)
    decreases v, 1
  {
    match v
    case Number(token) => IsNumeral(token)
    case Str(s) => NulFree(s)
    case Array(items) => ItemsConform(items)
    case Object(members) => MembersConform(members)
    case _ => true
  }

  ghost predicate ItemsConform(items: seq<Json>)
    decreases items, 0
  {
    items == [] || (Conforms(items[0]) && ItemsConform(items[1..]))
  }

  ghost predicate MembersConform(members: seq<Member>)
    decreases members, 0
  {
    members == [] || (NulFree(members[0].key) && Conforms(members[0].value) && MembersConform(members[1..]))
  }

  // ---- strings ----

  function PieceOf(c: char): Piece {
    match EscapeLetter(c)
    case Some(letter) => Short(letter)
    case None =>
      if c > '\U{1f}' then Plain(c)
      else Unit("00" + [LowerHex(c as int / 16 % 16), LowerHex(c as int % 16)])
  }

  function PiecesOf(s: string): seq<Piece> {
    if s == "" then [] else [PieceOf(s[0])] + PiecesOf(s[1..])
  }

  lemma PieceIsEscape(c: char)
    requires c != NUL
    ensures PieceOf(c).Valid() && PieceOf(c).Text() == EscapeChar(c) && PieceOf(c).Value() == [c]
  {
    if EscapeLetter(c).None? && c <= '\U{1f}' {
      ControlUnit(c);
    }
  }

  lemma ControlUnit(c: char)
    requires NUL < c <= '\U{1f}'
    ensures var h := "00" + [LowerHex(c as int / 16 % 16), LowerHex(c as int % 16)];
            |h| == 4 && AllHex(h) && Hex4(h) == c as nat && ScalarValue(Hex4(h)) && Utf8(Hex4(h)) == [c]
  {
    DigitRoundTrip(0);
    DigitRoundTrip(c as nat / 16 % 16);
    DigitRoundTrip(c as nat % 16);
    assert LowerHex(0) == '0';
  }

  lemma {:induction false} PiecesAreEscape(s: string)
    requires NulFree(s)
    ensures Pieces(PiecesOf(s)) && PiecesText(PiecesOf(s)) == Escape(s) && PiecesValue(PiecesOf(s)) == s
  {
    hide PieceOf, EscapeChar;
    if s != "" {
      PieceIsEscape(s[0]);
      PiecesAreEscape(s[1..]);
      assert PiecesOf(s)[1..] == PiecesOf(s[1..]);
      assert [s[0]] + s[1..] == s;
    }
  }

  // ---- values ----

  ghost function NumeralOf(token: string): (n: Numeral)
    requires IsNumeral(token)
    ensures n.Valid() && n.Text() == token
  {
    var n: Numeral :| n.Valid() && n.Text() == token;
    n
  }

  /** The syntax tree of the printed form. */
  ghost function DocOf(v: Json, format: bool, depth: nat): Doc
    requires Conforms(v)
    decreases v, 1
  {
    match v
    case Null => DNull
    case False => DFalse
    case True => DTrue
    case Number(token) => DNumber(NumeralOf(token))
    case Str(s) => DString(PiecesOf(s))
    case Array(items) => DArray("", ItemDocs(items, format, depth + 1, true))
    case Object(members) => DObject(Margin(format, depth), MemberDocs(members, format, depth + 1))
  }

  /** The beginning of a line. */
  function Margin(format: bool, depth: nat): string {
    When(format, "\n") + Indent(format, depth)
  }

  ghost function ItemDocs(items: seq<Json>, format: bool, depth: nat, first: bool): (r: seq<DItem>)
    requires ItemsConform(items)
    ensures |r| == |items|
    decreases items, 0
  {
    if items == [] then []
    else
      var item := DItem(When(!first && format, " "), DocOf(items[0], format, depth), "");
      [item] + ItemDocs(items[1..], format, depth, false)
  }

  ghost function MemberDocs(members: seq<Member>, format: bool, depth: nat): (r: seq<DMember>)
    requires MembersConform(members) && depth > 0
    ensures |r| == |members|
    decreases members, 0
  {
    if members == [] then [] else [MemberDoc(members, format, depth)] + MemberDocs(members[1..], format, depth)
  }

  ghost function MemberDoc(members: seq<Member>, format: bool, depth: nat): DMember
    requires members != [] && MembersConform(members) && depth > 0
    decreases members, 0, 0
  {
    DMember(Margin(format, depth), PiecesOf(members[0].key), "", When(format, "\t"),
            DocOf(members[0].value, format, depth), if |members| == 1 then Margin(format, depth - 1) else "")
  }

  lemma MarginIsWs(format: bool, depth: nat)
    ensures Ws(Margin(format, depth)) && Ws(When(format, "\t")) && Ws(When(format, " ")) && Ws("")
  {
  }

  lemma {:induction false} DocIsText(v: Json, format: bool, depth: nat, rest: string)
    requires Conforms(v)
    ensures Valid(DocOf(v, format, depth)) && Value(DocOf(v, format, depth)) == v
    ensures Spell(DocOf(v, format, depth), rest) == Render(v, format, depth) + rest
    decreases v, 1
  {
    hide PiecesOf, PiecesText, PiecesValue, RenderItems, RenderMembers, ItemDocs, MemberDocs, SpellItems, SpellMembers,
         Values, MemberValues, ValidItems, ValidMembers, Margin, Indent, Escape, CString, Numeral.Text, Numeral.Valid;
    MarginIsWs(format, depth);
    match v
    case Str(s) =>
      PiecesAreEscape(s);
      Quotes(Escape(s), rest);
    case Array(items) =>
      ArrayIsText(items, format, depth, rest);
    case Object(members) =>
      ObjectIsText(members, format, depth, rest);
    case _ =>
  }

  lemma Quotes(e: string, rest: string)
    ensures [QUOTE] + (e + ([QUOTE] + rest)) == [QUOTE] + e + [QUOTE] + rest
  {
  }

  lemma {:induction false} ArrayIsText(items: seq<Json>, format: bool, depth: nat, rest: string)
    requires ItemsConform(items)
    ensures var d := DArray("", ItemDocs(items, format, depth + 1, true));
            && Valid(d) && Value(d) == Array(items)
            && Spell(d, rest) == Render(Array(items), format, depth) + rest
    decreases items, 1
  {
    hide SpellItems, Render;
    var docs, text := ItemDocs(items, format, depth + 1, true), RenderItems(items, format, depth + 1);
    assert Render(Array(items), format, depth) == "[" + text + "]" by { ArrayRenders(items, format, depth); }
    MarginIsWs(format, depth);
    if items == [] {
      assert text == "" && docs == [];
      assert "[" + ("" + ("]" + rest)) == "[" + text + "]" + rest;
    } else {
      ItemsAreText(items, format, depth + 1, true, rest);
      assert "[" + ("" + text + ("]" + rest)) == "[" + text + "]" + rest;
    }
  }

  lemma ArrayRenders(items: seq<Json>, format: bool, depth: nat)
    ensures Render(Array(items), format, depth) == "[" + RenderItems(items, format, depth + 1) + "]"
  {
  }

  lemma {:induction false} ItemsAreText(items: seq<Json>, format: bool, depth: nat, first: bool, rest: string)
    requires ItemsConform(items)
    ensures ValidItems(ItemDocs(items, format, depth, first)) && Values(ItemDocs(items, format, depth, first)) == items
    ensures items != [] ==>
              SpellItems(ItemDocs(items, format, depth, first), rest)
              == When(!first && format, " ") + RenderItems(items, format, depth) + ("]" + rest)
    decreases items, 0
  {
    if items != [] {
      var docs, others := ItemDocs(items, format, depth, first), ItemDocs(items[1..], format, depth, false);
      var lead, tail := When(!first && format, " "), RenderItems(items[1..], format, depth);
      assert docs[1..] == others && docs[0].after == "" && docs[0].before == lead;
      ItemsAreText(items[1..], format, depth, false, rest);
      var after := if |items| == 1 then "]" + rest else "," + SpellItems(others, rest);
      DocIsText(items[0], format, depth, after);
      ItemsSpell(docs, rest);
      MarginIsWs(format, depth);
      hide Spell, SpellItems, Render, DocOf, ItemDocs;
      assert "" + after == after;
      var value := Render(items[0], format, depth);
      if |items| == 1 {
        LastItem(lead, value, "]" + rest);
        assert tail == "" by { NoItemsLeft(format, depth); }
      } else {
        NextItem(lead, value, When(format, " "), tail, "]" + rest);
      }
      assert [items[0]] + items[1..] == items;
    }
  }

  lemma NoItemsLeft(format: bool, depth: nat)
    ensures RenderItems([], format, depth) == "" && RenderMembers([], format, depth) == ""
  {
  }

  lemma LastItem(lead: string, value: string, end: string)
    ensures lead + (value + end) == lead + (value + "" + "") + end
  {
  }

  lemma NextItem(lead: string, value: string, gap: string, tail: string, end: string)
    ensures lead + (value + ("," + (gap + tail + end))) == lead + (value + ("," + gap) + tail) + end
  {
  }

  lemma {:induction false} ObjectIsText(members: seq<Member>, format: bool, depth: nat, rest: string)
    requires MembersConform(members)
    ensures var d := DObject(Margin(format, depth), MemberDocs(members, format, depth + 1));
            && Valid(d) && Value(d) == Object(members)
            && Spell(d, rest) == Render(Object(members), format, depth) + rest
    decreases members, 2
  {
    hide SpellMembers, Render, Indent, RenderMembers, MemberDocs, ValidMembers, MemberValues, Ws;
    var docs, text := MemberDocs(members, format, depth + 1), RenderMembers(members, format, depth + 1);
    ObjectRenders(members, format, depth);
    MarginIsWs(format, depth);
    MembersAreDocs(members, format, depth + 1);
    if members == [] {
      NoItemsLeft(format, depth + 1);
      EmptyBraces(When(format, "\n"), Indent(format, depth), rest);
    } else {
      MembersAreText(members, format, depth + 1, rest);
      FullBraces(When(format, "\n"), text, Indent(format, depth), rest);
    }
  }

  lemma ObjectRenders(members: seq<Member>, format: bool, depth: nat)
    ensures Render(Object(members), format, depth)
         == ("{" + When(format, "\n")) + RenderMembers(members, format, depth + 1) + (Indent(format, depth) + "}")
  {
  }

  lemma EmptyBraces(line: string, tabs: string, rest: string)
    ensures "{" + (line + tabs + ("}" + rest)) == ("{" + line) + "" + (tabs + "}") + rest
  {
  }

  lemma FullBraces(line: string, text: string, tabs: string, rest: string)
    ensures "{" + (line + text + (tabs + ("}" + rest))) == ("{" + line) + text + (tabs + "}") + rest
  {
  }

  lemma {:induction false} MembersAreDocs(members: seq<Member>, format: bool, depth: nat)
    requires MembersConform(members) && depth > 0
    ensures ValidMembers(MemberDocs(members, format, depth))
    ensures MemberValues(MemberDocs(members, format, depth)) == members
    decreases members, 1
  {
    DocsUnfold(members, format, depth);
    if members != [] {
      hide ValidMembers, MemberValues, MemberDocs, MemberDoc, Valid, Value, Pieces, PiecesValue, CString, Ws;
      MembersAreDocs(members[1..], format, depth);
      MemberIsText(members, format, depth, "");
      FirstIsDoc(MemberDocs(members, format, depth), MemberDocs(members[1..], format, depth), members);
    }
  }

  /** The members' lines, and the end of the object. */
  function Lines(members: seq<Member>, format: bool, depth: nat, rest: string): string
    requires depth > 0
  {
    When(format, "\n") + RenderMembers(members, format, depth) + (Indent(format, depth - 1) + ("}" + rest))
  }

  lemma {:induction false} MembersAreText(members: seq<Member>, format: bool, depth: nat, rest: string)
    requires MembersConform(members) && depth > 0 && members != []
    ensures SpellMembers(MemberDocs(members, format, depth), rest) == Lines(members, format, depth, rest)
    decreases members, 1
  {
    DocsUnfold(members, format, depth);
    hide SpellMembers, SpellMember, MemberRest, Lines, MemberDocs, MemberDoc, Render, MemberLead, Valid, Value,
         Pieces, Ws;
    var docs := MemberDocs(members, format, depth);
    if |members| > 1 {
      MembersAreText(members[1..], format, depth, rest);
    }
    AfterMember(members, format, depth, rest);
    MemberIsText(members, format, depth, docs[0].after + MemberRest(docs, rest));
    FirstIsText(docs, members, format, depth, rest);
  }

  lemma DocsUnfold(members: seq<Member>, format: bool, depth: nat)
    requires MembersConform(members) && depth > 0
    ensures members == [] ==>
              MemberDocs(members, format, depth) == [] && ValidMembers([]) && MemberValues([]) == []
    ensures members != [] ==>
              var docs := MemberDocs(members, format, depth);
              && MembersConform(members[1..]) && docs[1..] == MemberDocs(members[1..], format, depth)
              && docs[0] == MemberDoc(members, format, depth)
  {
    hide MemberDoc;
  }

  lemma FirstIsDoc(docs: seq<DMember>, others: seq<DMember>, members: seq<Member>)
    requires docs != [] && members != [] && docs[1..] == others && ValidMembers(others)
    requires MemberValues(others) == members[1..]
    requires var d := docs[0];
             && Ws(d.before) && Ws(d.beforeColon) && Ws(d.afterColon) && Ws(d.after) && Pieces(d.key) && Valid(d.value)
             && CString(PiecesValue(d.key)) == members[0].key && Value(d.value) == members[0].value
    ensures ValidMembers(docs) && MemberValues(docs) == members
  {
    hide Ws, Pieces, Valid, Value, PiecesValue, CString;
    assert [members[0]] + members[1..] == members;
  }

  lemma FirstIsText(docs: seq<DMember>, members: seq<Member>, format: bool, depth: nat, rest: string)
    requires docs != [] && members != [] && depth > 0
    requires var after := docs[0].after + MemberRest(docs, rest);
             docs[0].before + SpellMember(docs[0], after)
             == When(format, "\n") + (MemberLead(members[0].key, format, depth)
                                      + (Render(members[0].value, format, depth) + after))
    requires docs[0].after + MemberRest(docs, rest)
          == When(|members| > 1, ",") + Lines(members[1..], format, depth, rest)
    ensures SpellMembers(docs, rest) == Lines(members, format, depth, rest)
  {
    MembersSpell(docs, rest);
    hide SpellMembers, SpellMember, Render, Indent, MemberLead, RenderMembers, MemberRest;
    MembersRender(members, format, depth);
    MemberLine(When(format, "\n"), MemberLead(members[0].key, format, depth), Render(members[0].value, format, depth),
               When(|members| > 1, ","), RenderMembers(members[1..], format, depth),
               Indent(format, depth - 1) + ("}" + rest));
  }

  lemma MembersRender(members: seq<Member>, format: bool, depth: nat)
    requires members != []
    ensures RenderMembers(members, format, depth)
         == MemberLead(members[0].key, format, depth) + Render(members[0].value, format, depth)
            + (When(|members| > 1, ",") + When(format, "\n")) + RenderMembers(members[1..], format, depth)
  {
    hide Render, MemberLead;
  }

  lemma MemberLine(line: string, lead: string, value: string, comma: string, tail: string, end: string)
    ensures line + (lead + (value + (comma + (line + tail + end))))
         == line + (lead + value + (comma + line) + tail) + end
  {
  }

  /** What follows a member's value. */
  lemma AfterMember(members: seq<Member>, format: bool, depth: nat, rest: string)
    requires members != [] && MembersConform(members) && depth > 0
    requires |members| > 1 ==>
               SpellMembers(MemberDocs(members[1..], format, depth), rest) == Lines(members[1..], format, depth, rest)
    ensures var docs := MemberDocs(members, format, depth);
            docs[0].after + MemberRest(docs, rest)
            == When(|members| > 1, ",") + Lines(members[1..], format, depth, rest)
  {
    hide SpellMembers, Indent, DocOf;
    var docs := MemberDocs(members, format, depth);
    assert docs[1..] == MemberDocs(members[1..], format, depth);
    if |members| == 1 {
      NoItemsLeft(format, depth);
      OneMember(When(format, "\n"), Indent(format, depth - 1), "}" + rest);
    } else {
      hide Lines;
      assert "" + ("," + Lines(members[1..], format, depth, rest)) == "," + Lines(members[1..], format, depth, rest);
    }
  }

  lemma OneMember(line: string, tabs: string, end: string)
    ensures line + tabs + end == "" + (line + "" + (tabs + end))
  {
  }

  lemma {:induction false} MemberIsText(members: seq<Member>, format: bool, depth: nat, after: string)
    requires members != [] && MembersConform(members) && depth > 0
    ensures var d := MemberDoc(members, format, depth);
            && Ws(d.before) && Ws(d.beforeColon) && Ws(d.afterColon) && Ws(d.after) && Pieces(d.key) && Valid(d.value)
            && CString(PiecesValue(d.key)) == members[0].key && Value(d.value) == members[0].value
            && d.before + SpellMember(d, after)
            == When(format, "\n") + (MemberLead(members[0].key, format, depth)
                                     + (Render(members[0].value, format, depth) + after))
    decreases members, 0
  {
    var m := members[0];
    DocIsText(m.value, format, depth, after);
    PiecesAreEscape(m.key);
    MarginIsWs(format, depth);
    MarginIsWs(format, depth - 1);
    hide Spell, Render, DocOf, PiecesOf, PiecesText, Indent, Escape;
    LeadJoins(When(format, "\n"), Indent(format, depth), Escape(m.key), When(format, "\t"),
              Render(m.value, format, depth) + after);
  }

  lemma LeadJoins(line: string, tabs: string, key: string, gap: string, value: string)
    ensures line + tabs + ([QUOTE] + (key + ([QUOTE] + ("" + (":" + (gap + value))))))
         == line + (tabs + ([QUOTE] + key + [QUOTE]) + (":" + gap) + value)
  {
  }

  /** Whatever is printed, formatted or not, is a text of the grammar, and the value it stands
      for is the one printed. */
  lemma PrintedIsJson(v: Json, format: bool) returns (d: Doc)
    requires Conforms(v)
    ensures Valid(d) && Text(d) == Render(v, format, 0) && Value(d) == v
  {
    hide Spell, Render, Valid, Value, DocOf;
    d := DocOf(v, format, 0);
    DocIsText(v, format, 0, "");
    assert Render(v, format, 0) + "" == Render(v, format, 0);
  }

  lemma {:induction false} ConformingPrints(v: Json)
    requires Conforms(v)
    ensures Printable(v)
    decreases v, 1
  {
    hide NumberToken;
    match v
    case Number(token) => NumeralPrints(NumeralOf(token));
    case Array(items) => ItemsPrint(items);
    case Object(members) => MembersPrint(members);
    case _ =>
  }

  lemma {:induction false} ItemsPrint(items: seq<Json>)
    requires ItemsConform(items)
    ensures PrintableItems(items)
    decreases items, 0
  {
    if items != [] {
      ConformingPrints(items[0]);
      ItemsPrint(items[1..]);
    }
  }

  lemma {:induction false} MembersPrint(members: seq<Member>)
    requires MembersConform(members)
    ensures PrintableMembers(members)
    decreases members, 0
  {
    if members != [] {
      ConformingPrints(members[0].value);
      MembersPrint(members[1..]);
    }
  }
}
