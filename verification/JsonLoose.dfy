/** What the parser accepts: nothing but the grammar's own structure, with a few liberties in
    blanks, numbers and strings. */
module JsonLoose {
  import opened Basics
  import opened JsonText
  import opened JsonNumbers
  import opened JsonPieces
  import opened JsonRender
  import T = JsonRoundTrip
  import M = JsonMinify

  /** Any characters up to the space pass for blanks. */
  predicate Space(s: string) {
    forall i | 0 <= i < |s| :: s[i] <= ' '
  }

  datatype Tree =
    | TNull
    | TFalse
    | TTrue
    | TNumber(d: Decimal)
    | TString(raw: string, value: string)
    | TArray(blank: string, items: seq<TItem>)
    | TObject(blank: string, members: seq<TMember>)

  datatype TItem = TItem(before: string, value: Tree, after: string)

  datatype TMember =
    TMember(before: string, raw: string, key: string, beforeColon: string, afterColon: string, value: Tree,
            after: string)

  ghost predicate Valid(t: Tree)
    decreases t, 1
  {
    match t
    case TNumber(d) => d.Valid() && d.Plain() && |d.Text()| <= 63
    case TString(raw, value) => Literals(raw, value)
    case TArray(blank, items) => Space(blank) && ValidItems(items)
    case TObject(blank, members) => Space(blank) && ValidMembers(members)
    case _ => true
  }

  ghost predicate ValidItems(items: seq<TItem>)
    decreases items, 0
  {
    items == [] ||
    (Space(items[0].before) && Space(items[0].after) && Valid(items[0].value) && ValidItems(items[1..]))
  }

  ghost predicate ValidMembers(members: seq<TMember>)
    decreases members, 0
  {
    members == [] ||
    var m := members[0];
    && Space(m.before) && Space(m.beforeColon) && Space(m.afterColon) && Space(m.after)
    && Literals(m.raw, m.key) && Valid(m.value) && ValidMembers(members[1..])
  }

  function Value(t: Tree): Json
    decreases t, 1
  {
    match t
    case TNull => Null
    case TFalse => False
    case TTrue => True
    case TNumber(d) => Number(d.Text())
    case TString(_, value) => Str(value)
    case TArray(_, items) => Array(Values(items))
    case TObject(_, members) => Object(MemberValues(members))
  }

  function Values(items: seq<TItem>): seq<Json>
    decreases items, 0
  {
    if items == [] then [] else [Value(items[0].value)] + Values(items[1..])
  }

  function MemberValues(members: seq<TMember>): seq<Member>
    decreases members, 0
  {
    if members == [] then [] else [Member(members[0].key, Value(members[0].value))] + MemberValues(members[1..])
  }

  /** The text of t, followed by rest. */
  function Spell(t: Tree, rest: string): string
    decreases t, 1
  {
    match t
    case TNull => "null" + rest
    case TFalse => "false" + rest
    case TTrue => "true" + rest
    case TNumber(d) => d.Text() + rest
    case TString(raw, _) => [QUOTE] + (raw + ([QUOTE] + rest))
    case TArray(blank, items) => "[" + if items == [] then blank + ("]" + rest) else SpellItems(items, rest)
    case TObject(blank, members) => "{" + if members == [] then blank + ("}" + rest) else SpellMembers(members, rest)
  }

  function SpellItems(items: seq<TItem>, rest: string): string
    requires items != []
    decreases items, 0
  {
    items[0].before + Spell(items[0].value, items[0].after
      + if |items| == 1 then "]" + rest else "," + SpellItems(items[1..], rest))
  }

  function SpellMembers(members: seq<TMember>, rest: string): string
    requires members != []
    decreases members, 0
  {
    members[0].before + SpellMember(members[0], members[0].after
      + if |members| == 1 then "}" + rest else "," + SpellMembers(members[1..], rest))
  }

  function SpellMember(m: TMember, rest: string): string
    decreases m, 0
  {
    [QUOTE] + (m.raw + ([QUOTE] + (m.beforeColon + (":" + (m.afterColon + Spell(m.value, rest))))))
  }

  // ---- what was read ----

  lemma {:induction false} Splits(s: string) returns (blank: string)
    ensures Space(blank) && s == blank + SkipWs(s)
  {
    if |s| > 1 && s[0] <= ' ' {
      blank := Splits(s[1..]);
      blank := [s[0]] + blank;
    } else {
      blank := "";
    }
  }

  lemma NumberReadBack(s: string) returns (d: Decimal)
    requires s != "" && (s[0] == '-' || IsDigit(s[0])) && ParseNumber(s).Read?
    ensures Valid(TNumber(d)) && ParseNumber(s).value == Number(d.Text()) && s == d.Text() + ParseNumber(s).rest
  {
    d := NumberShape(s);
    hide ParseNumber, Figures, Exponent.Valid, Exponent.Text;
    var t := d.Text();
    assert s[0] == t[0];
    FirstChar(d);
  }

  lemma FirstChar(d: Decimal)
    requires d.Valid() && d.Text() != "" && (d.Text()[0] == '-' || IsDigit(d.Text()[0]))
    ensures d.Plain()
  {
    hide Figures, Exponent.Valid, Exponent.Text;
  }

  /** Every value that is read was spelled by a tree that stands for it and is nested no deeper
      than the limit. */
  lemma {:induction false} ValueRead(s: string, depth: nat) returns (t: Tree)
    requires ParseValue(s, depth).Read? && depth <= NESTING_LIMIT
    ensures Valid(t) && Value(t) == ParseValue(s, depth).value && s == Spell(t, ParseValue(s, depth).rest)
    ensures depth + Nesting(Value(t)) <= NESTING_LIMIT
    decreases |s|, 1
  {
    hide ParseString, ParseNumber, ParseArray, ParseObject, Literals;
    if Begins(s, "null") {
      t := TNull;
      assert s == "null" + s[4..];
    } else if Begins(s, "false") {
      t := TFalse;
      assert s == "false" + s[5..];
    } else if Begins(s, "true") {
      t := TTrue;
      assert s == "true" + s[4..];
    } else if s[0] == QUOTE {
      var raw := StringRead(s);
      t := TString(raw, ParseString(s).value);
    } else if s[0] == '-' || IsDigit(s[0]) {
      var d := NumberReadBack(s);
      t := TNumber(d);
    } else if s[0] == '[' {
      t := ArrayRead(s, depth);
    } else {
      t := ObjectRead(s, depth);
    }
  }

  lemma Nothing()
    ensures Space("") && ValidItems([]) && ValidMembers([])
  {
  }

  lemma {:induction false} ArrayRead(s: string, depth: nat) returns (t: Tree)
    requires s != "" && s[0] == '[' && ParseArray(s, depth).Read? && depth <= NESTING_LIMIT
    ensures Valid(t) && Value(t) == ParseArray(s, depth).value && s == Spell(t, ParseArray(s, depth).rest)
    ensures depth + Nesting(Value(t)) <= NESTING_LIMIT
    decreases |s|, 0
  {
    hide ParseItems, SkipWs, SpellItems, Spell, ValidItems, Space;
    Nothing();
    var blank := Splits(s[1..]);
    var body := SkipWs(s[1..]);
    if body[0] == ']' {
      t := TArray(blank, []);
      assert s == "[" + (blank + ("]" + body[1..]));
      ArraySpells(blank, [], body[1..]);
    } else {
      var items := ItemsRead(blank, body, depth + 1);
      t := TArray("", items);
      assert s == "[" + (blank + body);
      ArraySpells("", items, ParseItems(body, depth + 1).rest);
    }
  }

  /** The same for elements; before is what stands in front of the first. */
  lemma {:induction false} ItemsRead(before: string, s: string, depth: nat) returns (items: seq<TItem>)
    requires ParseItems(s, depth).Read? && depth <= NESTING_LIMIT && Space(before)
    ensures items != [] && ValidItems(items) && Values(items) == ParseItems(s, depth).value
    ensures before + s == SpellItems(items, ParseItems(s, depth).rest)
    ensures depth + NestingItems(Values(items)) <= NESTING_LIMIT
    decreases |s|, 2
  {
    hide ParseValue, SkipWs, Spell, Space;
    var v, after := ParseValue(s, depth).value, ParseValue(s, depth).rest;
    var t := ValueRead(s, depth);
    var next := SkipWs(after);
    var gap := Splits(after);
    ItemsStep(s, v, after, depth);
    hide ParseItems;
    var item := TItem(before, t, gap);
    if next[0] == ',' {
      var lead := Splits(next[1..]);
      var others := ItemsRead(lead, SkipWs(next[1..]), depth);
      items := [item] + others;
      assert items[1..] == others;
      assert next == "," + next[1..];
    } else {
      items := [item];
      assert items[1..] == [];
      assert next == "]" + next[1..];
    }
  }

  lemma {:induction false} ObjectRead(s: string, depth: nat) returns (t: Tree)
    requires s != "" && s[0] == '{' && ParseObject(s, depth).Read? && depth <= NESTING_LIMIT
    ensures Valid(t) && Value(t) == ParseObject(s, depth).value && s == Spell(t, ParseObject(s, depth).rest)
    ensures depth + Nesting(Value(t)) <= NESTING_LIMIT
    decreases |s|, 0
  {
    hide ParseMembers, SkipWs, SpellMembers, Spell, ValidMembers, Space;
    Nothing();
    var blank := Splits(s[1..]);
    var body := SkipWs(s[1..]);
    if body[0] == '}' {
      t := TObject(blank, []);
      assert s == "{" + (blank + ("}" + body[1..]));
      ObjectSpells(blank, [], body[1..]);
    } else {
      var members := MembersRead(blank, body, depth + 1);
      t := TObject("", members);
      assert s == "{" + (blank + body);
      ObjectSpells("", members, ParseMembers(body, depth + 1).rest);
    }
  }

  lemma {:induction false} MemberRead(before: string, s: string, depth: nat) returns (m: TMember)
    requires ParseMember(s, depth).Read? && depth <= NESTING_LIMIT && Space(before)
    ensures m.before == before && m.after == "" && Space(m.beforeColon) && Space(m.afterColon)
    ensures Literals(m.raw, m.key) && Valid(m.value)
    ensures Member(m.key, Value(m.value)) == ParseMember(s, depth).value
    ensures s == SpellMember(m, ParseMember(s, depth).rest)
    ensures depth + Nesting(Value(m.value)) <= NESTING_LIMIT
    decreases |s|, 2
  {
    hide ParseValue, ParseString, SkipWs, Spell, Space, Literals;
    var key, afterKey := ParseString(s).value, ParseString(s).rest;
    var raw := StringRead(s);
    var colon := SkipWs(afterKey);
    var gap := Splits(afterKey);
    var lead := Splits(colon[1..]);
    var t := ValueRead(SkipWs(colon[1..]), depth);
    m := TMember(before, raw, key, gap, lead, t, "");
    assert colon == ":" + colon[1..];
  }

  lemma {:induction false} MembersRead(before: string, s: string, depth: nat) returns (members: seq<TMember>)
    requires ParseMembers(s, depth).Read? && depth <= NESTING_LIMIT && Space(before)
    ensures members != [] && ValidMembers(members) && MemberValues(members) == ParseMembers(s, depth).value
    ensures before + s == SpellMembers(members, ParseMembers(s, depth).rest)
    ensures depth + NestingMembers(MemberValues(members)) <= NESTING_LIMIT
    decreases |s|, 3
  {
    hide ParseMember, SkipWs, SpellMember, Space, Literals;
    var v, after := ParseMember(s, depth).value, ParseMember(s, depth).rest;
    var first := MemberRead(before, s, depth);
    var next := SkipWs(after);
    var gap := Splits(after);
    MembersStep(s, v, after, depth);
    hide ParseMembers;
    var m := first.(after := gap);
    SameSpelling(first, m, after);
    if next[0] == ',' {
      var lead := Splits(next[1..]);
      var others := MembersRead(lead, SkipWs(next[1..]), depth);
      members := [m] + others;
      assert members[1..] == others;
      assert next == "," + next[1..];
    } else {
      members := [m];
      assert members[1..] == [];
      assert next == "}" + next[1..];
    }
  }

  lemma SameSpelling(m: TMember, n: TMember, rest: string)
    requires n == m.(after := n.after)
    ensures SpellMember(n, rest) == SpellMember(m, rest)
  {
    hide Spell;
  }

  // ---- what is spelled is read ----

  /** What follows an element or a member. */
  function ItemTail(items: seq<TItem>, rest: string): string
    requires items != []
  {
    if |items| == 1 then "]" + rest else "," + SpellItems(items[1..], rest)
  }

  function MemberRest(members: seq<TMember>, rest: string): string
    requires members != []
  {
    if |members| == 1 then "}" + rest else "," + SpellMembers(members[1..], rest)
  }

  /** Texts begin with a character that is neither blank nor a closing one. */
  lemma SpellOpens(t: Tree, rest: string)
    requires Valid(t)
    ensures T.Opens(Spell(t, rest))
  {
    if t.TNumber? {
      hide IsNumeric, Decimal.Plain;
      DecimalIsNumeric(t.d);
      assert t.d.Text() != "" && (t.d.Text() + rest)[0] == t.d.Text()[0];
    }
  }

  lemma Skips(blank: string, t: string)
    requires Space(blank) && t != "" && t[0] > ' '
    ensures SkipWs(blank + t) == t
  {
    hide SkipWs;
    T.SkipBlanks(blank, t);
  }

  /** Blanks and punctuation cannot go on a number. */
  lemma BlankEnds(blank: string, t: string)
    requires Space(blank) && t != "" && t[0] in [',', ']', '}', NUL]
    ensures Ends(blank + t)
  {
    assert (blank + t)[0] == if blank == "" then t[0] else blank[0];
  }

  lemma WordParses(word: string, v: Json, rest: string, depth: nat)
    requires (word == "null" && v == Null) || (word == "false" && v == False) || (word == "true" && v == True)
    ensures ParseValue(word + rest, depth) == Read(v, rest)
  {
    var s := word + rest;
    assert s[|word|..] == rest;
    assert s[0] == word[0];
    assert Begins(s, word);
  }

  lemma {:induction false} ValueParses(t: Tree, rest: string, depth: nat)
    requires Valid(t) && depth <= NESTING_LIMIT && Ends(rest)
    ensures ParseValue(Spell(t, rest), depth) == T.Expected(Value(t), Nesting(Value(t)), depth, rest)
    decreases t, 3
  {
    hide ParseValue, ParseString, ParseNumber, ParseArray, ParseObject, SpellItems, SpellMembers, Literals,
         Decimal.Text, Decimal.Valid, Decimal.Plain;
    match t
    case TNull => WordParses("null", Null, rest, depth);
    case TFalse => WordParses("false", False, rest, depth);
    case TTrue => WordParses("true", True, rest, depth);
    case TNumber(d) => DecimalReads(d, rest, depth);
    case TString(raw, value) =>
      LiteralParses(raw, value, rest);
      Dispatch(Spell(t, rest), depth);
    case TArray(blank, items) =>
      Dispatch(Spell(t, rest), depth);
      ArrayParses(blank, items, rest, depth);
    case TObject(blank, members) =>
      Dispatch(Spell(t, rest), depth);
      ObjectParses(blank, members, rest, depth);
  }

  lemma ArraySpells(blank: string, items: seq<TItem>, rest: string)
    ensures var s := Spell(TArray(blank, items), rest);
            && s != "" && s[0] == '[' && s == "[" + s[1..]
            && s[1..] == if items == [] then blank + ("]" + rest) else SpellItems(items, rest)
  {
    hide SpellItems;
  }

  lemma {:induction false} ArrayParses(blank: string, items: seq<TItem>, rest: string, depth: nat)
    requires Space(blank) && ValidItems(items) && depth <= NESTING_LIMIT
    ensures var s := Spell(TArray(blank, items), rest);
            && s != "" && s[0] == '['
            && ParseArray(s, depth) == T.Expected(Array(Values(items)), Nesting(Array(Values(items))), depth, rest)
    decreases items, 2
  {
    hide ParseItems, SkipWs, SpellItems, Spell, ValidItems;
    var s := Spell(TArray(blank, items), rest);
    ArraySpells(blank, items, rest);
    if items == [] {
      Skips(blank, "]" + rest);
      assert ("]" + rest)[1..] == rest;
    } else {
      ItemsBegin(items, rest);
      if depth < NESTING_LIMIT {
        ItemsParse(items, rest, depth + 1);
      }
    }
  }

  lemma ItemsBegin(items: seq<TItem>, rest: string)
    requires items != [] && ValidItems(items)
    ensures SkipWs(SpellItems(items, rest)) == Spell(items[0].value, items[0].after + ItemTail(items, rest))
    ensures T.Opens(SkipWs(SpellItems(items, rest)))
  {
    hide SkipWs, Spell;
    SpellOpens(items[0].value, items[0].after + ItemTail(items, rest));
    Skips(items[0].before, Spell(items[0].value, items[0].after + ItemTail(items, rest)));
  }

  lemma {:induction false} ItemsParse(items: seq<TItem>, rest: string, depth: nat)
    requires items != [] && ValidItems(items) && depth <= NESTING_LIMIT
    ensures ParseItems(SkipWs(SpellItems(items, rest)), depth)
         == T.Expected(Values(items), NestingItems(Values(items)), depth, rest)
    decreases items, 1
  {
    hide ParseValue, ParseItems, SkipWs, Spell, SpellItems;
    var item, tail := items[0], ItemTail(items, rest);
    var after, v := item.after + tail, Value(item.value);
    ItemsBegin(items, rest);
    BlankEnds(item.after, tail);
    Skips(item.after, tail);
    ValueParses(item.value, after, depth);
    var s := Spell(item.value, after);
    assert Values(items) == [v] + Values(items[1..]) && Values(items)[1..] == Values(items[1..]);
    if depth + Nesting(v) > NESTING_LIMIT {
      T.ItemsFail(s, depth);
    } else {
      ItemsStep(s, v, after, depth);
      if |items| == 1 {
        assert tail[1..] == rest && Values(items) == [v];
      } else {
        assert tail[1..] == SpellItems(items[1..], rest);
        ItemsParse(items[1..], rest, depth);
      }
    }
  }

  lemma ObjectSpells(blank: string, members: seq<TMember>, rest: string)
    ensures var s := Spell(TObject(blank, members), rest);
            && s != "" && s[0] == '{' && s == "{" + s[1..]
            && s[1..] == if members == [] then blank + ("}" + rest) else SpellMembers(members, rest)
  {
    hide SpellMembers;
  }

  lemma {:induction false} ObjectParses(blank: string, members: seq<TMember>, rest: string, depth: nat)
    requires Space(blank) && ValidMembers(members) && depth <= NESTING_LIMIT
    ensures var s := Spell(TObject(blank, members), rest);
            && s != "" && s[0] == '{'
            && ParseObject(s, depth)
            == T.Expected(Object(MemberValues(members)), Nesting(Object(MemberValues(members))), depth, rest)
    decreases members, 2
  {
    hide ParseMembers, SkipWs, SpellMembers, Spell, ValidMembers;
    var s := Spell(TObject(blank, members), rest);
    ObjectSpells(blank, members, rest);
    if members == [] {
      Skips(blank, "}" + rest);
      assert ("}" + rest)[1..] == rest;
    } else {
      MembersBegin(members, rest);
      if depth < NESTING_LIMIT {
        MembersParse(members, rest, depth + 1);
      }
    }
  }

  lemma MembersBegin(members: seq<TMember>, rest: string)
    requires members != [] && ValidMembers(members)
    ensures var s := SkipWs(SpellMembers(members, rest));
            s == SpellMember(members[0], members[0].after + MemberRest(members, rest)) && s != "" && s[0] == QUOTE
  {
    hide SkipWs, Spell, Literals;
    Skips(members[0].before, SpellMember(members[0], members[0].after + MemberRest(members, rest)));
  }

  lemma {:induction false} MemberParses(m: TMember, after: string, depth: nat)
    requires Literals(m.raw, m.key) && Space(m.beforeColon) && Space(m.afterColon) && Valid(m.value)
    requires depth <= NESTING_LIMIT && Ends(after)
    ensures ParseMember(SpellMember(m, after), depth)
         == T.Expected(Member(m.key, Value(m.value)), Nesting(Value(m.value)), depth, after)
    decreases m, 4
  {
    hide ParseValue, ParseString, SkipWs, Spell, Literals;
    var value := Spell(m.value, after);
    var colon := ":" + (m.afterColon + value);
    LiteralParses(m.raw, m.key, m.beforeColon + colon);
    Skips(m.beforeColon, colon);
    SpellOpens(m.value, after);
    Skips(m.afterColon, value);
    assert colon[1..] == m.afterColon + value;
    ValueParses(m.value, after, depth);
  }

  lemma {:induction false} MembersParse(members: seq<TMember>, rest: string, depth: nat)
    requires members != [] && ValidMembers(members) && depth <= NESTING_LIMIT
    ensures ParseMembers(SkipWs(SpellMembers(members, rest)), depth)
         == T.Expected(MemberValues(members), NestingMembers(MemberValues(members)), depth, rest)
    decreases members, 1
  {
    hide ParseMember, ParseMembers, SkipWs, Spell, SpellMember, SpellMembers, Literals;
    var m, tail := members[0], MemberRest(members, rest);
    var after := m.after + tail;
    var v := Member(m.key, Value(m.value));
    MembersBegin(members, rest);
    BlankEnds(m.after, tail);
    Skips(m.after, tail);
    MemberParses(m, after, depth);
    var s := SpellMember(m, after);
    var vs := MemberValues(members);
    assert vs == [v] + MemberValues(members[1..]) && vs[1..] == MemberValues(members[1..]);
    if depth + Nesting(v.value) > NESTING_LIMIT {
      T.MembersFail(s, depth);
    } else {
      MembersStep(s, v, after, depth);
      if |members| == 1 {
        assert tail[1..] == rest && vs == [v];
      } else {
        assert tail[1..] == SpellMembers(members[1..], rest);
        MembersParse(members[1..], rest, depth);
      }
    }
  }

  // ---- whole texts ----

  function Text(t: Tree): string {
    Spell(t, "")
  }

  lemma {:induction false} SpellThen(t: Tree, rest: string, more: string)
    ensures Spell(t, rest + more) == Spell(t, rest) + more
    decreases t, 1
  {
    hide SpellItems, SpellMembers, Decimal.Text;
    match t
    case TNumber(d) => Assoc(d.Text(), rest, more);
    case TString(raw, _) =>
      Assoc([QUOTE], rest, more);
      Assoc(raw, [QUOTE] + rest, more);
      Assoc([QUOTE], raw + ([QUOTE] + rest), more);
    case TArray(blank, items) =>
      if items != [] {
        ItemsThen(items, rest, more);
        Assoc("[", SpellItems(items, rest), more);
      } else {
        ClosesThen("[", blank, "]", rest, more);
      }
    case TObject(blank, members) =>
      if members != [] {
        MembersThen(members, rest, more);
        Assoc("{", SpellMembers(members, rest), more);
      } else {
        ClosesThen("{", blank, "}", rest, more);
      }
    case _ => WordsThen(rest, more);
  }

  lemma WordsThen(rest: string, more: string)
    ensures forall word :: word in {"null", "false", "true"} ==> word + (rest + more) == word + rest + more
  {
  }

  lemma ClosesThen(a: string, b: string, c: string, rest: string, more: string)
    ensures a + (b + (c + (rest + more))) == a + (b + (c + rest)) + more
  {
  }

  lemma Assoc(a: string, b: string, c: string)
    ensures a + (b + c) == a + b + c
  {
  }

  lemma ItemsSpell(items: seq<TItem>, rest: string)
    requires items != []
    ensures SpellItems(items, rest) == items[0].before + Spell(items[0].value, items[0].after + ItemTail(items, rest))
  {
    hide Spell;
  }

  lemma MembersSpell(members: seq<TMember>, rest: string)
    requires members != []
    ensures SpellMembers(members, rest)
         == members[0].before + SpellMember(members[0], members[0].after + MemberRest(members, rest))
  {
    hide SpellMember;
  }

  lemma {:induction false} ItemsThen(items: seq<TItem>, rest: string, more: string)
    requires items != []
    ensures SpellItems(items, rest + more) == SpellItems(items, rest) + more
    decreases items, 0
  {
    var a, tail := items[0].after, ItemTail(items, rest);
    assert ItemTail(items, rest + more) == tail + more by {
      hide SpellItems;
      if |items| == 1 {
        Assoc("]", rest, more);
      } else {
        ItemsThen(items[1..], rest, more);
        Assoc(",", SpellItems(items[1..], rest), more);
      }
    }
    ItemsSpell(items, rest);
    ItemsSpell(items, rest + more);
    hide Spell, SpellItems, ItemTail;
    Assoc(a, tail, more);
    SpellThen(items[0].value, a + tail, more);
    Assoc(items[0].before, Spell(items[0].value, a + tail), more);
  }

  lemma {:induction false} MemberThen(m: TMember, rest: string, more: string)
    ensures SpellMember(m, rest + more) == SpellMember(m, rest) + more
    decreases m, 0
  {
    hide Spell;
    SpellThen(m.value, rest, more);
    Regroup([QUOTE], m.raw, m.beforeColon, m.afterColon, Spell(m.value, rest), more);
  }

  lemma Regroup(q: string, key: string, a: string, b: string, v: string, more: string)
    ensures q + (key + (q + (a + (":" + (b + (v + more)))))) == q + (key + (q + (a + (":" + (b + v))))) + more
  {
  }

  lemma {:induction false} MembersThen(members: seq<TMember>, rest: string, more: string)
    requires members != []
    ensures SpellMembers(members, rest + more) == SpellMembers(members, rest) + more
    decreases members, 0
  {
    var m, tail := members[0], MemberRest(members, rest);
    assert MemberRest(members, rest + more) == tail + more by {
      hide SpellMembers;
      if |members| == 1 {
        Assoc("}", rest, more);
      } else {
        MembersThen(members[1..], rest, more);
        Assoc(",", SpellMembers(members[1..], rest), more);
      }
    }
    MembersSpell(members, rest);
    MembersSpell(members, rest + more);
    hide SpellMember, SpellMembers, MemberRest;
    Assoc(m.after, tail, more);
    MemberThen(m, m.after + tail, more);
    Assoc(m.before, SpellMember(m, m.after + tail), more);
  }

  /** The byte order mark, or nothing. */
  function Mark(mark: bool): string {
    if mark then BOM else ""
  }

  lemma TextParses(mark: bool, before: string, t: Tree, after: string)
    requires Valid(t) && Space(before) && Space(after)
    ensures ParseText(Mark(mark) + before + Text(t) + after)
         == if Nesting(Value(t)) <= 10 then Some(Value(t)) else None
  {
    hide ParseValue, SkipWs, Spell, SkipBom, Nesting, Value, Space, Mark, Valid, Ends, T.Opens;
    var end := after + [NUL];
    var body := Spell(t, end);
    TextThen(t, after);
    Around(Mark(mark), before, Text(t), after);
    SpellOpens(t, end);
    MarkSkips(mark, before, body);
    OpensHigh(body);
    Skips(before, body);
    BlankEnds(after, [NUL]);
    ValueParses(t, end, 0);
    EndSkips(after);
  }

  lemma OpensHigh(s: string)
    requires T.Opens(s)
    ensures s != "" && s[0] > ' '
  {
  }

  lemma TextThen(t: Tree, after: string)
    requires Valid(t)
    ensures Spell(t, after + [NUL]) == Text(t) + (after + [NUL]) && |Text(t)| > 0
  {
    var end := after + [NUL];
    SpellThen(t, "", end);
    SpellOpens(t, "");
    hide Spell;
    assert "" + end == end;
  }

  lemma Around(mark: string, before: string, text: string, after: string)
    ensures mark + before + text + after + [NUL] == mark + (before + (text + (after + [NUL])))
  {
  }

  lemma MarkSkips(mark: bool, before: string, body: string)
    requires Space(before) && T.Opens(body) && |body| > 1
    ensures SkipBom(Mark(mark) + (before + body)) == before + body
  {
    var s := Mark(mark) + (before + body);
    if mark {
      assert s[3..] == before + body;
    } else {
      assert s == before + body;
      assert s[0] == if before == "" then body[0] else before[0];
    }
  }

  lemma {:induction false} EndSkips(after: string)
    requires Space(after)
    ensures SkipWs(after + [NUL]) == [NUL]
  {
    if after != "" {
      assert (after + [NUL])[1..] == after[1..] + [NUL];
      EndSkips(after[1..]);
    }
  }
  /** Every text that is accepted is blanks, one value nested no deeper than 10, and blanks, with at
      most the byte order mark in front. */
  lemma TextRead(text: string) returns (mark: bool, before: string, t: Tree, after: string)
    requires NulFree(text) && ParseText(text).Some?
    ensures Valid(t) && Value(t) == ParseText(text).value && Nesting(Value(t)) <= 10
    ensures Space(before) && Space(after) && text == Mark(mark) + before + Text(t) + after
  {
    hide ParseValue, SkipWs, Spell, Space, Terminated, Nesting, Value, Valid, Mark, Text;
    var whole := text + [NUL];
    assert Terminated(whole) by { TextEnds(text); }
    var s := SkipBom(whole);
    M.BomEnds(whole);
    M.SkipEnds(s);
    before := Splits(s);
    t := ValueRead(SkipWs(s), 0);
    var rest := ParseValue(SkipWs(s), 0).rest;
    M.ValueEnds(SkipWs(s), 0);
    M.SkipEnds(rest);
    after := Splits(rest);
    M.TerminatedShape(SkipWs(rest));
    mark := MarkOrNot(whole);
    TextThen(t, after);
    WithoutEnd(text, Mark(mark), before, Text(t), after);
  }

  lemma WithoutEnd(text: string, mark: string, before: string, body: string, after: string)
    requires text + [NUL] == mark + (before + (body + (after + [NUL])))
    ensures text == mark + before + body + after
  {
    Around(mark, before, body, after);
    var s := mark + before + body + after;
    assert (text + [NUL])[..|text|] == text && (s + [NUL])[..|s|] == s;
  }

  /** The texts that are accepted, and what each is read as. */
  ghost predicate Denotes(text: string, v: Json) {
    exists mark: bool, before: string, t: Tree, after: string ::
      && Valid(t) && Space(before) && Space(after) && text == Mark(mark) + before + Text(t) + after
      && Value(t) == v && Nesting(v) <= 10
  }

  lemma TextExact(text: string, v: Json)
    requires NulFree(text)
    ensures ParseText(text) == Some(v) <==> Denotes(text, v)
  {
    hide ParseText, Spell, Space, Valid, Value, Nesting, Mark, Text;
    if ParseText(text) == Some(v) {
      var mark, before, t, after := TextRead(text);
    }
    if Denotes(text, v) {
      var mark: bool, before: string, t: Tree, after: string :|
        && Valid(t) && Space(before) && Space(after) && text == Mark(mark) + before + Text(t) + after
        && Value(t) == v && Nesting(v) <= 10;
      TextParses(mark, before, t, after);
    }
  }

  lemma TextEnds(text: string)
    requires NulFree(text)
    ensures Terminated(text + [NUL])
  {
  }

  lemma MarkOrNot(whole: string) returns (mark: bool)
    ensures whole == Mark(mark) + SkipBom(whole)
  {
    mark := SkipBom(whole) != whole;
    assert "" + whole == whole;
  }
}
