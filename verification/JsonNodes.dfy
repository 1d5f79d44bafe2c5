/** cJSON_Compare on trees in memory, and what it says about a tree and its copy. */
module JsonNodes {
  import opened Basics
  import opened JsonText
  import opened JsonCompare
  import opened JsonTree
  import R = JsonRender
  import T = JsonRoundTrip
  import Parser = JsonParser
  import Printer = JsonPrinter

  predicate SameType(p: Payload, q: Payload) {
    match p
    case NullNode => q.NullNode?
    case FalseNode => q.FalseNode?
    case TrueNode => q.TrueNode?
    case NumberNode(_) => q.NumberNode?
    case StringNode(_) => q.StringNode?
    case ArrayNode => q.ArrayNode?
    case ObjectNode => q.ObjectNode?
  }

  /** What a comparison of a with b answers.  Equal ones are equal up to the order of members;
      the converse holds for consistent values; and trees that share no node are found equal
      only when they are consistent. */
  ghost predicate Answers(equal: bool, v: Json, w: Json, apart: bool) {
    && (equal ==> Canonical(v) == Canonical(w))
    && (Canonical(v) == Canonical(w) && Consistent(v) && Consistent(w) ==> equal)
    && (equal && apart ==> Consistent(v) && Consistent(w))
  }

  lemma ItemSizes(v: Json, i: nat)
    requires i < |Items(v)|
    ensures Size(Items(v)[i]) < Size(v)
  {
    match v
    case Array(items) => ItemSize(items, i);
    case Object(members) => MemberSize(members, members[i]);
    case _ =>
  }

  /** cJSON_Compare, case sensitive. */
  method Compare(a: Node, b: Node, ghost v: Json, ghost w: Json) returns (equal: bool)
    requires Represents(a, v) && Represents(b, w)
    ensures Answers(equal, v, w, a.repr !! b.repr)
    ensures a == b ==> equal
    decreases Size(v) + Size(w), 1
  {
    hide Represents, Canonical, Consistent;
    Kids(a, v);
    Kids(b, w);
    if !SameType(a.payload, b.payload) {
      OtherType(a.payload, b.payload, v, w);
      return false;
    }
    if a == b {
      OneValue(a, v, w);
      return true;
    }
    match a.payload {
      case ArrayNode =>
        equal := CompareItems(a, b, v, w);
      case ObjectNode =>
        equal := CompareMembers(a, b, v, w);
        if equal {
          equal := CompareMembers(b, a, w, v);
        }
        ObjectsAnswer(v.members, w.members);
      case _ =>
        equal := a.payload == b.payload;
        LeavesAnswer(a.payload, b.payload, v, w);
    }
  }

  lemma OtherType(p: Payload, q: Payload, v: Json, w: Json)
    requires Tagged(p, v) && Tagged(q, w) && !SameType(p, q)
    ensures Canonical(v) != Canonical(w)
  {
  }

  lemma LeavesAnswer(p: Payload, q: Payload, v: Json, w: Json)
    requires Tagged(p, v) && Tagged(q, w) && SameType(p, q) && !p.ArrayNode? && !p.ObjectNode?
    ensures Canonical(v) == Canonical(w) <==> p == q
    ensures Consistent(v) && Consistent(w)
  {
  }

  lemma ObjectsAnswer(x: seq<Member>, y: seq<Member>)
    ensures Canonical(Object(x)) == Canonical(Object(y)) <==> CanonicalMembers(x) == CanonicalMembers(y)
    ensures Consistent(Object(x)) <==> Even(x) && forall i | 0 <= i < |x| :: Consistent(x[i].value)
    ensures Consistent(Object(y)) <==> Even(y) && forall i | 0 <= i < |y| :: Consistent(y[i].value)
    ensures Within(x, y) && Within(y, x) <==> CanonicalMembers(x) == CanonicalMembers(y) && Even(x) && Even(y)
  {
    SameTable(x, y);
    hide CanonicalMembers, Even, Within;
  }

  /** Walks both lists in step; neither may be longer. */
  method CompareItems(a: Node, b: Node, ghost v: Json, ghost w: Json) returns (equal: bool)
    requires Represents(a, v) && Represents(b, w) && v.Array? && w.Array?
    ensures Answers(equal, v, w, a.repr !! b.repr)
    decreases Size(v) + Size(w), 0
  {
    hide Represents, Canonical, Consistent, Linked, Tagged;
    ghost var x, y := v.items, w.items;
    Kids(a, v);
    Kids(b, w);
    ArraysAnswer(x, y);
    var p, q := a.child, b.child;
    ghost var i := 0;
    while p != null && q != null
      invariant 0 <= i <= |x| && i <= |y| && p == At(a.kids, i) && q == At(b.kids, i)
      invariant forall j | 0 <= j < i :: Canonical(x[j]) == Canonical(y[j])
      invariant a.repr !! b.repr ==> forall j | 0 <= j < i :: Consistent(x[j]) && Consistent(y[j])
      decreases |x| - i
    {
      Child(a, v, i);
      Child(b, w, i);
      ItemSizes(v, i);
      ItemSizes(w, i);
      var same := Compare(p, q, x[i], y[i]);
      if !same {
        return false;
      }
      p, q := p.next, q.next;
      i := i + 1;
    }
    equal := p == q;
  }

  lemma ArraysAnswer(x: seq<Json>, y: seq<Json>)
    ensures Canonical(Array(x)) == Canonical(Array(y)) <==>
            |x| == |y| && forall i | 0 <= i < |x| :: Canonical(x[i]) == Canonical(y[i])
    ensures Consistent(Array(x)) <==> forall i | 0 <= i < |x| :: Consistent(x[i])
    ensures Consistent(Array(y)) <==> forall i | 0 <= i < |y| :: Consistent(y[i])
  {
    hide Canonical;
    var p, q := CanonicalItems(x), CanonicalItems(y);
    assert Canonical(Array(x)) == List(p) && Canonical(Array(y)) == List(q) by { ListsOf(x, y); }
    if p == q {
      assert forall i | 0 <= i < |x| :: p[i] == Canonical(x[i]) && q[i] == Canonical(y[i]);
    }
  }

  lemma ListsOf(x: seq<Json>, y: seq<Json>)
    ensures Canonical(Array(x)) == List(CanonicalItems(x)) && Canonical(Array(y)) == List(CanonicalItems(y))
  {
  }

  /** The one-sided walk: every item of a against the first with its key in b. */
  method CompareMembers(a: Node, b: Node, ghost v: Json, ghost w: Json) returns (equal: bool)
    requires Represents(a, v) && Represents(b, w) && v.Object? && w.Object?
    ensures equal ==> Within(v.members, w.members)
    ensures Within(v.members, w.members) && Consistent(v) && Consistent(w) ==> equal
    ensures equal && a.repr !! b.repr ==> forall i | 0 <= i < |v.members| :: Consistent(v.members[i].value)
    decreases Size(v) + Size(w), 0
  {
    hide Represents, Canonical, CanonicalMembers, Consistent, Linked, Within, Even, Items, Tagged;
    ghost var x, y := v.members, w.members;
    Kids(a, v);
    Kids(b, w);
    ObjectsAnswer(x, y);
    MembersAsItems(x);
    MembersAsItems(y);
    var p := a.child;
    ghost var i := 0;
    while p != null
      invariant 0 <= i <= |x| && p == At(a.kids, i)
      invariant forall j | 0 <= j < i :: Entry(y, x[j])
      invariant a.repr !! b.repr ==> forall j | 0 <= j < i :: Consistent(x[j].value)
      decreases |x| - i
    {
      Child(a, v, i);
      ItemSizes(v, i);
      var same := CompareMember(p, b, x[i], w);
      if !same {
        WithinEntry(x, y, i);
        return false;
      }
      p := p.next;
      i := i + 1;
    }
    AllEntries(x, y);
    return true;
  }

  /** An item against the first with its key in b, if there is one. */
  method CompareMember(p: Node, b: Node, ghost m: Member, ghost w: Json) returns (same: bool)
    requires Represents(p, m.value) && p.key == Some(m.key) && Represents(b, w) && w.Object?
    ensures same ==> Entry(w.members, m)
    ensures Entry(w.members, m) && Consistent(m.value) && Consistent(w) ==> same
    ensures same && p.repr !! b.repr ==> Consistent(m.value)
    decreases Size(m.value) + Size(w), 2
  {
    hide Represents, Canonical, CanonicalMembers, Consistent, Linked, Even, Items, Tagged;
    ghost var y := w.members;
    Kids(b, w);
    ObjectsAnswer(y, y);
    MembersAsItems(y);
    var q, k := GetObjectItem(b, p.key.value, b.kids);
    FoundFirst(b, w, k, m.key);
    if q == null {
      return false;
    }
    Child(b, w, k);
    ItemSizes(w, k);
    same := Compare(p, q, m.value, y[k].value);
  }

  ghost predicate Entry(y: seq<Member>, m: Member) {
    m.key in CanonicalMembers(y) && CanonicalMembers(y)[m.key] == Canonical(m.value)
  }

  lemma WithinEntry(x: seq<Member>, y: seq<Member>, i: nat)
    requires i < |x|
    ensures Within(x, y) ==> Entry(y, x[i])
  {
  }

  lemma AllEntries(x: seq<Member>, y: seq<Member>)
    requires forall i | 0 <= i < |x| :: Entry(y, x[i])
    ensures Within(x, y)
  {
  }

  /** What the search along b finds is the table's entry. */
  lemma FoundFirst(b: Node, w: Json, k: nat, name: string)
    requires Represents(b, w) && w.Object? && k <= |b.kids|
    requires forall j | 0 <= j < k :: b.kids[j].key != Some(name)
    requires k < |b.kids| ==> b.kids[k].key == Some(name)
    ensures |b.kids| == |w.members|
    ensures k == |b.kids| ==> name !in CanonicalMembers(w.members)
    ensures k < |b.kids| ==>
              name in CanonicalMembers(w.members)
              && CanonicalMembers(w.members)[name] == Canonical(w.members[k].value)
  {
    Keys(b, w);
    hide Represents, Canonical, CanonicalMembers;
    if k < |b.kids| {
      FirstEntry(w.members, k, name);
    } else {
      NoEntry(w.members, name);
    }
  }

  lemma NoEntry(y: seq<Member>, name: string)
    requires forall j | 0 <= j < |y| :: y[j].key != name
    ensures name !in CanonicalMembers(y)
  {
  }

  /** A tree against a copy of itself: they compare equal exactly when the value is
      consistent. */
  method CompareWithCopy(n: Node, ghost v: Json) returns (equal: bool)
    requires Represents(n, v)
    ensures equal <==> Consistent(v)
  {
    hide Represents, Canonical, Consistent;
    var copy := Duplicate(n, true, true, v);
    assert forall x | x in n.repr :: allocated(x);
    equal := Compare(n, copy, v, v);
  }

  /** Printing a tree and parsing the text: with at most as many nested containers as the
      parser allows a new tree for the same value, and none with more. */
  method PrintAndParse(n: Node, format: bool, hasRealloc: bool, ghost v: Json) returns (r: Node?)
    requires Represents(n, v) && R.Printable(v) && |R.Render(v, format, 0)| + 2 <= Printer.INT_MAX
    ensures if R.Nesting(v) <= NESTING_LIMIT then Stands(r, v) && fresh(r.repr) else r == null
  {
    hide Represents, R.Render, R.Printable, R.Nesting, ParseText;
    var text := Printer.Print(n, format, hasRealloc, true, v);
    R.RenderNulFree(v, format, 0);
    T.RoundTrip(v, format);
    r := Parser.ParseWithOpts(text.value, true);
  }

  /** One value that is not: the same key with two values. */
  lemma UnevenCopy()
    ensures var v := Object([Member("k", True), Member("k", False)]); !Consistent(v) && !NoDuplicates(v)
  {
    var m := [Member("k", True), Member("k", False)];
    assert FirstNamed(m, 0, "k");
    FirstEntry(m, 0, "k");
    assert m[1].key == "k" && Canonical(m[1].value) != Canonical(m[0].value);
    assert m[0].key == m[1].key;
  }
}
