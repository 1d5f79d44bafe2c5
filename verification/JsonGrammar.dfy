/** Texts of the JSON grammar (RFC 8259) as syntax trees, with every choice of blanks, escapes and
    digits that it leaves; each is read as the value it stands for. */
module JsonGrammar {
  import opened Basics
  import opened JsonText
  import opened JsonRender
  import opened JsonNumbers
  import opened JsonPieces
  import T = JsonRoundTrip
  import L = JsonLoose

  /** ws: space, tab, line feed, carriage return. */
  predicate Ws(s: string) {
    forall i | 0 <= i < |s| :: s[i] == ' ' || s[i] == '\t' || s[i] == '\n' || s[i] == '\r'
  }

  // ---- values (sections 3 to 5) ----

  datatype Doc =
    | DNull
    | DFalse
    | DTrue
    | DNumber(n: Numeral)
    | DString(pieces: seq<Piece>)
    | DArray(blank: string, items: seq<DItem>)
    | DObject(blank: string, members: seq<DMember>)

  /** An element with the blanks around it. */
  datatype DItem = DItem(before: string, value: Doc, after: string)

  datatype DMember =
    DMember(before: string, key: seq<Piece>, beforeColon: string, afterColon: string, value: Doc, after: string)

  predicate Valid(d: Doc)
    decreases d, 1
  {
    match d
    case DNumber(n) => n.Valid() && |n.Text()| <= 63
    case DString(pieces) => Pieces(pieces)
    case DArray(blank, items) => Ws(blank) && ValidItems(items)
    case DObject(blank, members) => Ws(blank) && ValidMembers(members)
    case _ => true
  }

  predicate ValidItems(items: seq<DItem>)
    decreases items, 0
  {
    items == [] ||
    (Ws(items[0].before) && Ws(items[0].after) && Valid(items[0].value) && ValidItems(items[1..]))
  }

  predicate ValidMembers(members: seq<DMember>)
    decreases members, 0
  {
    members == [] ||
    var m := members[0];
    && Ws(m.before) && Ws(m.beforeColon) && Ws(m.afterColon) && Ws(m.after)
    && Pieces(m.key) && Valid(m.value) && ValidMembers(members[1..])
  }

  function Value(d: Doc): Json
    requires Valid(d)
    decreases d, 1
  {
    match d
    case DNull => Null
    case DFalse => False
    case DTrue => True
    case DNumber(n) => Number(n.Text())
    case DString(pieces) => Str(CString(PiecesValue(pieces)))
    case DArray(_, items) => Array(Values(items))
    case DObject(_, members) => Object(MemberValues(members))
  }

  function Values(items: seq<DItem>): (r: seq<Json>)
    requires ValidItems(items)
    ensures |r| == |items|
    decreases items, 0
  {
    if items == [] then [] else [Value(items[0].value)] + Values(items[1..])
  }

  function MemberValues(members: seq<DMember>): (r: seq<Member>)
    requires ValidMembers(members)
    ensures |r| == |members|
    decreases members, 0
  {
    if members == [] then []
    else [Member(CString(PiecesValue(members[0].key)), Value(members[0].value))] + MemberValues(members[1..])
  }

  /** The text of d, followed by rest. */
  function Spell(d: Doc, rest: string): string
    decreases d, 1
  {
    match d
    case DNull => "null" + rest
    case DFalse => "false" + rest
    case DTrue => "true" + rest
    case DNumber(n) => n.Text() + rest
    case DString(pieces) => [QUOTE] + (PiecesText(pieces) + ([QUOTE] + rest))
    case DArray(blank, items) => "[" + if items == [] then blank + ("]" + rest) else SpellItems(items, rest)
    case DObject(blank, members) => "{" + if members == [] then blank + ("}" + rest) else SpellMembers(members, rest)
  }

  function SpellItems(items: seq<DItem>, rest: string): string
    requires items != []
    decreases items, 0
  {
    items[0].before + Spell(items[0].value, items[0].after
      + if |items| == 1 then "]" + rest else "," + SpellItems(items[1..], rest))
  }

  function SpellMembers(members: seq<DMember>, rest: string): string
    requires members != []
    decreases members, 0
  {
    members[0].before + SpellMember(members[0], members[0].after
      + if |members| == 1 then "}" + rest else "," + SpellMembers(members[1..], rest))
  }

  /** A member from its key on, followed by rest. */
  function SpellMember(m: DMember, rest: string): string
    decreases m, 0
  {
    [QUOTE] + (PiecesText(m.key) + ([QUOTE] + (m.beforeColon + (":" + (m.afterColon + Spell(m.value, rest))))))
  }

  /** What follows an element or a member. */
  function ItemTail(items: seq<DItem>, rest: string): string
    requires items != []
  {
    if |items| == 1 then "]" + rest else "," + SpellItems(items[1..], rest)
  }

  function MemberRest(members: seq<DMember>, rest: string): string
    requires members != []
  {
    if |members| == 1 then "}" + rest else "," + SpellMembers(members[1..], rest)
  }

  // ---- the trees that the parser accepts ----

  function AsTree(d: Doc): L.Tree
    requires Valid(d)
    decreases d, 1
  {
    match d
    case DNull => L.TNull
    case DFalse => L.TFalse
    case DTrue => L.TTrue
    case DNumber(n) => L.TNumber(n.AsDecimal())
    case DString(pieces) => L.TString(PiecesText(pieces), CString(PiecesValue(pieces)))
    case DArray(blank, items) => L.TArray(blank, AsItems(items))
    case DObject(blank, members) => L.TObject(blank, AsMembers(members))
  }

  function AsItems(items: seq<DItem>): (r: seq<L.TItem>)
    requires ValidItems(items)
    ensures |r| == |items|
    decreases items, 0
  {
    if items == [] then []
    else [L.TItem(items[0].before, AsTree(items[0].value), items[0].after)] + AsItems(items[1..])
  }

  function AsMember(m: DMember): L.TMember
    requires Pieces(m.key) && Valid(m.value)
    decreases m, 0
  {
    L.TMember(m.before, PiecesText(m.key), CString(PiecesValue(m.key)), m.beforeColon, m.afterColon, AsTree(m.value),
              m.after)
  }

  function AsMembers(members: seq<DMember>): (r: seq<L.TMember>)
    requires ValidMembers(members)
    ensures |r| == |members|
    decreases members, 0
  {
    if members == [] then [] else [AsMember(members[0])] + AsMembers(members[1..])
  }

  lemma WsIsSpace(s: string)
    requires Ws(s)
    ensures L.Space(s)
  {
  }

  lemma {:induction false} TreeStands(d: Doc)
    requires Valid(d)
    ensures L.Valid(AsTree(d)) && L.Value(AsTree(d)) == Value(d)
    decreases d, 1
  {
    hide PiecesText, PiecesValue, Numeral.Text, Numeral.Valid, Decimal.Text, Decimal.Valid, CString, Literals, Ws,
         L.Space, L.ValidItems, L.ValidMembers, L.Values, L.MemberValues;
    match d
    case DNumber(n) => NumeralIsDecimal(n);
    case DString(pieces) => PiecesAreLiterals(pieces);
    case DArray(blank, items) =>
      WsIsSpace(blank);
      ItemsStand(items);
    case DObject(blank, members) =>
      WsIsSpace(blank);
      MembersStand(members);
    case _ =>
  }

  lemma {:induction false} ItemsStand(items: seq<DItem>)
    requires ValidItems(items)
    ensures L.ValidItems(AsItems(items)) && L.Values(AsItems(items)) == Values(items)
    decreases items, 0
  {
    hide Ws, L.Space, Valid, L.Valid, Value, L.Value, AsTree;
    if items != [] {
      WsIsSpace(items[0].before);
      WsIsSpace(items[0].after);
      TreeStands(items[0].value);
      ItemsStand(items[1..]);
      assert AsItems(items)[1..] == AsItems(items[1..]);
    }
  }

  lemma {:induction false} MembersStand(members: seq<DMember>)
    requires ValidMembers(members)
    ensures L.ValidMembers(AsMembers(members)) && L.MemberValues(AsMembers(members)) == MemberValues(members)
    decreases members, 0
  {
    hide Ws, L.Space, Valid, L.Valid, Value, L.Value, AsTree, PiecesText, PiecesValue, CString, Literals;
    if members != [] {
      var m := members[0];
      WsIsSpace(m.before);
      WsIsSpace(m.beforeColon);
      WsIsSpace(m.afterColon);
      WsIsSpace(m.after);
      PiecesAreLiterals(m.key);
      TreeStands(m.value);
      MembersStand(members[1..]);
      assert AsMembers(members)[1..] == AsMembers(members[1..]);
    }
  }

  lemma {:induction false} TreeSpells(d: Doc, rest: string)
    requires Valid(d)
    ensures L.Spell(AsTree(d), rest) == Spell(d, rest)
    decreases d, 1
  {
    hide PiecesText, PiecesValue, Numeral.Text, Numeral.Valid, Decimal.Text, Decimal.Valid, CString, Ws, SpellItems,
         SpellMembers, L.SpellItems, L.SpellMembers;
    match d
    case DNumber(n) => NumeralIsDecimal(n);
    case DArray(_, items) => if items != [] { ItemsSpellAlike(items, rest); }
    case DObject(_, members) => if members != [] { MembersSpellAlike(members, rest); }
    case _ =>
  }

  lemma {:induction false} ItemsSpellAlike(items: seq<DItem>, rest: string)
    requires items != [] && ValidItems(items)
    ensures L.SpellItems(AsItems(items), rest) == SpellItems(items, rest)
    decreases items, 0
  {
    hide Valid, Spell, L.Spell, AsTree;
    assert AsItems(items)[1..] == AsItems(items[1..]);
    if |items| > 1 {
      ItemsSpellAlike(items[1..], rest);
    }
    TreeSpells(items[0].value, items[0].after + ItemTail(items, rest));
  }

  lemma {:induction false} MembersSpellAlike(members: seq<DMember>, rest: string)
    requires members != [] && ValidMembers(members)
    ensures L.SpellMembers(AsMembers(members), rest) == SpellMembers(members, rest)
    decreases members, 0
  {
    hide Valid, Spell, L.Spell, AsTree, PiecesText, PiecesValue, CString;
    assert AsMembers(members)[1..] == AsMembers(members[1..]);
    if |members| > 1 {
      MembersSpellAlike(members[1..], rest);
    }
    TreeSpells(members[0].value, members[0].after + MemberRest(members, rest));
  }

  lemma ItemsSpell(items: seq<DItem>, rest: string)
    requires items != []
    ensures SpellItems(items, rest) == items[0].before + Spell(items[0].value, items[0].after + ItemTail(items, rest))
  {
    hide Spell;
  }

  lemma MembersSpell(members: seq<DMember>, rest: string)
    requires members != []
    ensures SpellMembers(members, rest)
         == members[0].before + SpellMember(members[0], members[0].after + MemberRest(members, rest))
  {
    hide SpellMember;
  }

  /** A value of the grammar is read as the value it stands for, whatever follows that cannot go
      on a number. */
  lemma ValueParses(d: Doc, rest: string, depth: nat)
    requires Valid(d) && depth <= NESTING_LIMIT && Ends(rest)
    ensures ParseValue(Spell(d, rest), depth) == T.Expected(Value(d), Nesting(Value(d)), depth, rest)
  {
    hide ParseValue, Spell, L.Spell, Valid, L.Valid, Value, L.Value, AsTree, Nesting;
    TreeStands(d);
    TreeSpells(d, rest);
    L.ValueParses(AsTree(d), rest, depth);
  }

  // ---- whole texts (section 2) ----

  function Text(d: Doc): string {
    Spell(d, "")
  }

  /** JSON-text = ws value ws, with or without a byte order mark in front: it is read as the
      value it stands for, exactly when its containers nest at most as deep as the limit. */
  lemma TextParses(mark: bool, before: string, d: Doc, after: string)
    requires Valid(d) && Ws(before) && Ws(after)
    ensures ParseText(L.Mark(mark) + before + Text(d) + after)
         == if Nesting(Value(d)) <= 10 then Some(Value(d)) else None
  {
    hide ParseText, Spell, L.Spell, Valid, L.Valid, Value, L.Value, AsTree, Nesting, Ws, L.Space, L.Mark;
    TreeStands(d);
    TreeSpells(d, "");
    WsIsSpace(before);
    WsIsSpace(after);
    L.TextParses(mark, before, AsTree(d), after);
  }
}
