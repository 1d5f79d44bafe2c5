/** No text of the JSON grammar for a value is shorter than what is printed unformatted. */
module JsonShortest {
  import opened Basics
  import opened JsonText
  import opened JsonRender
  import opened JsonUnicode
  import opened JsonNumbers
  import opened JsonPieces
  import opened JsonGrammar

  // ---- strings ----

  lemma {:induction false} EscapeJoins(a: string, b: string)
    ensures Escape(a + b) == Escape(a) + Escape(b)
  {
    hide EscapeChar;
    if a == "" {
      assert a + b == b;
    } else {
      assert (a + b)[1..] == a[1..] + b;
      EscapeJoins(a[1..], b);
      assert EscapeChar(a[0]) + (Escape(a[1..]) + Escape(b)) == EscapeChar(a[0]) + Escape(a[1..]) + Escape(b);
    }
  }

  lemma OneEscape(c: char)
    ensures Escape([c]) == EscapeChar(c)
    ensures c as int >= 0x80 ==> |EscapeChar(c)| == 1
  {
    assert Escape([c]) == EscapeChar(c) + Escape([c][1..]) && Escape("") == "";
  }

  /** Bytes of UTF-8 beyond ASCII are printed as they are. */
  lemma {:induction false} HighEscape(s: string)
    requires forall i | 0 <= i < |s| :: s[i] as int >= 0x80
    ensures |Escape(s)| == |s|
  {
    hide EscapeChar;
    if s != "" {
      OneEscape(s[0]);
      HighEscape(s[1..]);
    }
  }

  lemma CodePointEscape(cp: nat)
    requires cp <= 0x10FFFF
    ensures |Escape(Utf8(cp))| <= 6
  {
    hide EscapeChar, Escape;
    if cp < 0x80 {
      OneEscape(cp as char);
      EscapeBound(cp as char);
    } else {
      HighEscape(Utf8(cp));
    }
  }

  lemma EscapeBound(c: char)
    ensures |EscapeChar(c)| <= 6
  {
  }

  lemma PieceIsLonger(p: Piece)
    requires p.Valid()
    ensures |Escape(p.Value())| <= |p.Text()|
  {
    hide Utf8, Hex4, Escape;
    match p
    case Plain(c) => OneEscape(c);
    case Short(_) => OneEscape(p.Value()[0]);
    case Unit(digits) => CodePointEscape(Hex4(digits));
    case Pair(high, low) => CodePointEscape(0x10000 + (Hex4(high) - 0xD800) * 0x400 + (Hex4(low) - 0xDC00));
  }

  lemma {:induction false} PiecesAreLonger(ps: seq<Piece>)
    requires Pieces(ps)
    ensures |Escape(PiecesValue(ps))| <= |PiecesText(ps)|
  {
    hide Piece.Text, Piece.Value, Piece.Valid, EscapeChar;
    if ps != [] {
      PieceIsLonger(ps[0]);
      PiecesAreLonger(ps[1..]);
      EscapeJoins(ps[0].Value(), PiecesValue(ps[1..]));
    }
  }

  lemma QuotedIsShort(ps: seq<Piece>)
    requires Pieces(ps)
    ensures |Quoted(CString(PiecesValue(ps)))| <= |PiecesText(ps)| + 2
  {
    hide PiecesValue, PiecesText, Pieces, Escape, CString;
    var v := PiecesValue(ps);
    var c := CString(v);
    PiecesAreLonger(ps);
    assert v == c + v[|c|..];
    EscapeJoins(c, v[|c|..]);
  }

  // ---- values ----

  lemma {:induction false} ValueIsShort(d: Doc, depth: nat, rest: string)
    requires Valid(d)
    ensures |Render(Value(d), false, depth)| + |rest| <= |Spell(d, rest)|
    decreases d, 1
  {
    hide PiecesText, PiecesValue, Pieces, Numeral.Text, Numeral.Valid, CString, Quoted, RenderItems, RenderMembers,
         SpellItems, SpellMembers;
    match d
    case DString(pieces) => QuotedIsShort(pieces);
    case DArray(_, items) => ItemsAreShort(items, depth + 1, rest);
    case DObject(_, members) =>
      MembersAreShort(members, depth + 1, rest);
      assert |OpenBrace(false)| == 1 && |CloseBrace(false, depth)| == 1;
    case _ =>
  }

  lemma {:induction false} ItemsAreShort(items: seq<DItem>, depth: nat, rest: string)
    requires ValidItems(items)
    ensures if items == [] then RenderItems([], false, depth) == ""
            else |RenderItems(Values(items), false, depth)| + 1 + |rest| <= |SpellItems(items, rest)|
    decreases items, 0
  {
    if items != [] {
      hide Render, Spell, Value, Valid;
      ItemsAreShort(items[1..], depth, rest);
      ValueIsShort(items[0].value, depth, items[0].after + ItemTail(items, rest));
      assert Values(items)[1..] == Values(items[1..]);
    }
  }

  lemma {:induction false} MembersAreShort(members: seq<DMember>, depth: nat, rest: string)
    requires ValidMembers(members)
    ensures if members == [] then RenderMembers([], false, depth) == ""
            else |RenderMembers(MemberValues(members), false, depth)| + 1 + |rest| <= |SpellMembers(members, rest)|
    decreases members, 0
  {
    if members != [] {
      hide Render, Spell, Value, Valid, Quoted, CString, PiecesText, PiecesValue, Pieces;
      var m := members[0];
      MembersAreShort(members[1..], depth, rest);
      ValueIsShort(m.value, depth, m.after + MemberRest(members, rest));
      QuotedIsShort(m.key);
      assert MemberValues(members)[1..] == MemberValues(members[1..]);
      assert |Indent(false, depth)| == 0 && |Colon(false)| == 1;
    }
  }

  /** Whatever text of the grammar stands for a value, printing the value unformatted makes it no
      longer. */
  lemma PrintedIsShortest(d: Doc)
    requires Valid(d)
    ensures |Render(Value(d), false, 0)| <= |Text(d)|
  {
    hide Render, Spell, Value, Valid;
    ValueIsShort(d, 0, "");
  }
}
