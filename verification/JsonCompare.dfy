/** What comparing compares: values with the order of object members forgotten. */
module JsonCompare {
  import opened Basics
  import opened JsonText

  /** A value with the order of object members forgotten. */
  datatype Canon =
    | Leaf(value: Json)
    | List(items: seq<Canon>)
    | Table(entries: map<string, Canon>)

  function Canonical(v: Json): Canon
    decreases v, 1
  {
    match v
    case Array(items) => List(CanonicalItems(items))
    case Object(members) => Table(CanonicalMembers(members))
    case _ => Leaf(v)
  }

  function CanonicalItems(items: seq<Json>): (r: seq<Canon>)
    ensures |r| == |items|
    ensures forall i | 0 <= i < |items| :: r[i] == Canonical(items[i])
    decreases items, 0
  {
    if items == [] then [] else [Canonical(items[0])] + CanonicalItems(items[1..])
  }

  function CanonicalMembers(members: seq<Member>): (r: map<string, Canon>)
    ensures forall k :: k in r <==> exists i | 0 <= i < |members| :: members[i].key == k
    decreases members, 0
  {
    if members == [] then map[]
    else
      var r := CanonicalMembers(members[1..])[members[0].key := Canonical(members[0].value)];
      assert forall i | 0 < i < |members| :: members[i] == members[1..][i - 1];
      r
  }

  predicate DistinctKeys(members: seq<Member>) {
    forall i, j | 0 <= i < j < |members| :: members[i].key != members[j].key
  }

  /** No object, at any depth, has the same key twice. */
  predicate NoDuplicates(v: Json)
    decreases v, 1
  {
    match v
    case Array(items) => forall x | x in items :: NoDuplicates(x)
    case Object(members) => DistinctKeys(members) && forall m | m in members :: NoDuplicates(m.value)
    case _ => true
  }

  lemma {:induction false} EntryOf(members: seq<Member>, i: nat)
    requires DistinctKeys(members) && i < |members|
    ensures members[i].key in CanonicalMembers(members)
    ensures CanonicalMembers(members)[members[i].key] == Canonical(members[i].value)
  {
    if i > 0 {
      assert members[1..][i - 1] == members[i];
      EntryOf(members[1..], i - 1);
    }
  }

  predicate FirstNamed(members: seq<Member>, i: nat, name: string)
    requires i < |members|
  {
    members[i].key == name && forall j | 0 <= j < i :: members[j].key != name
  }

  /** A table keeps the first member with a key. */
  lemma {:induction false} FirstEntry(members: seq<Member>, i: nat, name: string)
    requires i < |members| && FirstNamed(members, i, name)
    ensures name in CanonicalMembers(members) && CanonicalMembers(members)[name] == Canonical(members[i].value)
  {
    if i > 0 {
      assert forall j | 0 <= j < |members[1..]| :: members[1..][j] == members[j + 1];
      FirstEntry(members[1..], i - 1, name);
    }
  }

  /** Members with the same key are equal, in one object. */
  ghost predicate Even(members: seq<Member>) {
    forall i | 0 <= i < |members| ::
      && members[i].key in CanonicalMembers(members)
      && CanonicalMembers(members)[members[i].key] == Canonical(members[i].value)
  }

  /** Members with the same key are equal, in every object at every depth. */
  ghost predicate Consistent(v: Json)
    decreases v
  {
    match v
    case Array(items) => forall i | 0 <= i < |items| :: Consistent(items[i])
    case Object(members) => Even(members) && forall i | 0 <= i < |members| :: Consistent(members[i].value)
    case _ => true
  }

  lemma {:induction false} NoDuplicatesConsistent(v: Json)
    requires NoDuplicates(v)
    ensures Consistent(v)
  {
    hide Canonical, CanonicalMembers;
    match v
    case Array(items) =>
      forall i | 0 <= i < |items|
        ensures Consistent(items[i])
      {
        assert items[i] in items;
        NoDuplicatesConsistent(items[i]);
      }
    case Object(members) =>
      forall i | 0 <= i < |members|
        ensures members[i].key in CanonicalMembers(members)
        ensures CanonicalMembers(members)[members[i].key] == Canonical(members[i].value)
        ensures Consistent(members[i].value)
      {
        assert members[i] in members;
        EntryOf(members, i);
        NoDuplicatesConsistent(members[i].value);
      }
    case _ =>
  }

  ghost function Size(v: Json): nat
    decreases v, 1
  {
    match v
    case Array(items) => 1 + SizeItems(items)
    case Object(members) => 1 + SizeMembers(members)
    case _ => 0
  }

  ghost function SizeItems(items: seq<Json>): nat
    decreases items, 0
  {
    if items == [] then 0 else 1 + Size(items[0]) + SizeItems(items[1..])
  }

  ghost function SizeMembers(members: seq<Member>): nat
    decreases members, 0
  {
    if members == [] then 0 else 1 + Size(members[0].value) + SizeMembers(members[1..])
  }

  lemma {:induction false} ItemSize(items: seq<Json>, i: nat)
    requires i < |items|
    ensures Size(items[i]) < SizeItems(items)
  {
    if i > 0 {
      ItemSize(items[1..], i - 1);
    }
  }

  lemma {:induction false} MemberSize(members: seq<Member>, m: Member)
    requires m in members
    ensures Size(m.value) < SizeMembers(members)
  {
    if m != members[0] {
      assert m in members[1..];
      MemberSize(members[1..], m);
    }
  }

  /** Every member of x has an equal value under its key in y. */
  ghost predicate Within(x: seq<Member>, y: seq<Member>) {
    forall i | 0 <= i < |x| ::
      x[i].key in CanonicalMembers(y) && CanonicalMembers(y)[x[i].key] == Canonical(x[i].value)
  }

  /** The first member with a key that there is. */
  function First(members: seq<Member>, name: string): (i: nat)
    requires exists j | 0 <= j < |members| :: members[j].key == name
    ensures i < |members| && FirstNamed(members, i, name)
  {
    if members[0].key == name then 0
    else
      assert forall j | 0 < j < |members| :: members[j] == members[1..][j - 1];
      1 + First(members[1..], name)
  }

  /** Two one-sided walks decide whether the tables are the same, and find members with equal
      keys and different values on the way. */
  lemma SameTable(x: seq<Member>, y: seq<Member>)
    ensures Within(x, y) && Within(y, x) <==> CanonicalMembers(x) == CanonicalMembers(y) && Even(x) && Even(y)
  {
    hide Canonical, CanonicalMembers;
    if Within(x, y) && Within(y, x) {
      WithinEntries(x, y);
      WithinEntries(y, x);
      TableKeys(x);
      TableKeys(y);
    }
  }

  lemma TableKeys(x: seq<Member>)
    ensures forall k | k in CanonicalMembers(x) :: exists i | 0 <= i < |x| :: x[i].key == k
    ensures forall i | 0 <= i < |x| :: x[i].key in CanonicalMembers(x)
  {
  }

  lemma WithinEntries(x: seq<Member>, y: seq<Member>)
    requires Within(x, y)
    ensures Even(x)
    ensures forall k | k in CanonicalMembers(x) ::
              k in CanonicalMembers(y) && CanonicalMembers(x)[k] == CanonicalMembers(y)[k]
  {
    hide Canonical, CanonicalMembers;
    TableKeys(x);
    forall i | 0 <= i < |x|
      ensures x[i].key in CanonicalMembers(y)
      ensures CanonicalMembers(x)[x[i].key] == CanonicalMembers(y)[x[i].key] == Canonical(x[i].value)
    {
      var k := First(x, x[i].key);
      FirstEntry(x, k, x[i].key);
    }
  }

  lemma DistinctIsEven(x: seq<Member>)
    requires DistinctKeys(x)
    ensures Even(x)
  {
    hide Canonical, CanonicalMembers;
    forall i | 0 <= i < |x|
      ensures x[i].key in CanonicalMembers(x) && CanonicalMembers(x)[x[i].key] == Canonical(x[i].value)
    {
      EntryOf(x, i);
    }
  }

  // ---- what forgetting the order means ----

  /** Every member of x has its partner in y, and the other way round. */
  predicate Pairs(x: seq<Member>, y: seq<Member>, p: seq<nat>, q: seq<nat>) {
    && |p| == |x| && |q| == |y|
    && (forall i | 0 <= i < |x| :: p[i] < |y| && q[p[i]] == i && x[i].key == y[p[i]].key)
    && (forall j | 0 <= j < |y| :: q[j] < |x| && p[q[j]] == j)
  }

  /** Equal but for the order of members, in every object at every depth. */
  ghost predicate Reordered(a: Json, b: Json)
    decreases a
  {
    match (a, b)
    case (Array(x), Array(y)) => |x| == |y| && forall i | 0 <= i < |x| :: Reordered(x[i], y[i])
    case (Object(x), Object(y)) =>
      exists p, q | Pairs(x, y, p, q) :: forall i | 0 <= i < |x| :: Reordered(x[i].value, y[p[i]].value)
    case _ => a == b
  }

  /** Equal tables pair the members of both objects up. */
  lemma TablesPair(x: seq<Member>, y: seq<Member>) returns (p: seq<nat>, q: seq<nat>)
    requires DistinctKeys(x) && DistinctKeys(y) && CanonicalMembers(x) == CanonicalMembers(y)
    ensures Pairs(x, y, p, q)
  {
    forall i | 0 <= i < |x|
      ensures exists j | 0 <= j < |y| :: y[j].key == x[i].key
    {
      EntryOf(x, i);
    }
    forall j | 0 <= j < |y|
      ensures exists i | 0 <= i < |x| :: x[i].key == y[j].key
    {
      EntryOf(y, j);
    }
    p := seq(|x|, i requires 0 <= i < |x| => First(y, x[i].key));
    q := seq(|y|, j requires 0 <= j < |y| => First(x, y[j].key));
  }

  ghost predicate SameValues(x: seq<Member>, y: seq<Member>, p: seq<nat>)
    requires |p| == |x| && forall i | 0 <= i < |x| :: p[i] < |y|
  {
    forall i | 0 <= i < |x| :: Canonical(x[i].value) == Canonical(y[p[i]].value)
  }

  lemma PairsWithin(x: seq<Member>, y: seq<Member>, p: seq<nat>, q: seq<nat>)
    requires DistinctKeys(y) && Pairs(x, y, p, q) && SameValues(x, y, p)
    ensures Within(x, y)
  {
    hide Canonical, CanonicalMembers, DistinctKeys;
    forall i | 0 <= i < |x|
      ensures x[i].key in CanonicalMembers(y) && CanonicalMembers(y)[x[i].key] == Canonical(x[i].value)
    {
      EntryOf(y, p[i]);
    }
  }

  lemma PairsValue(x: seq<Member>, y: seq<Member>, i: nat, j: nat)
    requires DistinctKeys(x) && DistinctKeys(y) && i < |x| && j < |y| && x[i].key == y[j].key
    requires CanonicalMembers(x) == CanonicalMembers(y)
    ensures Canonical(x[i].value) == Canonical(y[j].value)
  {
    hide Canonical, CanonicalMembers;
    EntryOf(x, i);
    EntryOf(y, j);
  }

  /** Paired members make equal tables exactly when their values are equal. */
  lemma PairsTable(x: seq<Member>, y: seq<Member>, p: seq<nat>, q: seq<nat>)
    requires DistinctKeys(x) && DistinctKeys(y) && Pairs(x, y, p, q)
    ensures CanonicalMembers(x) == CanonicalMembers(y) <==> SameValues(x, y, p)
  {
    hide Canonical, CanonicalMembers, DistinctKeys;
    if SameValues(x, y, p) {
      assert forall j | 0 <= j < |y| :: p[q[j]] == j && x[q[j]].key == y[j].key;
      assert SameValues(y, x, q);
      PairsWithin(x, y, p, q);
      PairsWithin(y, x, q, p);
      DistinctIsEven(x);
      DistinctIsEven(y);
      SameTable(x, y);
    }
    if CanonicalMembers(x) == CanonicalMembers(y) {
      forall i | 0 <= i < |x|
        ensures Canonical(x[i].value) == Canonical(y[p[i]].value)
      {
        PairsValue(x, y, i, p[i]);
      }
    }
  }

  /** Canonical values are equal exactly for values that differ in the order of members
      alone, at whatever depth. */
  lemma {:induction false} CanonicalIsReordering(a: Json, b: Json)
    requires NoDuplicates(a) && NoDuplicates(b)
    ensures Canonical(a) == Canonical(b) <==> Reordered(a, b)
    decreases a, 1
  {
    match (a, b)
    case (Array(x), Array(y)) =>
      if |x| == |y| {
        forall i | 0 <= i < |x|
          ensures Canonical(x[i]) == Canonical(y[i]) <==> Reordered(x[i], y[i])
        {
          CanonicalIsReordering(x[i], y[i]);
        }
        if CanonicalItems(x) == CanonicalItems(y) {
          assert forall i | 0 <= i < |x| :: Canonical(x[i]) == CanonicalItems(y)[i];
        }
      }
    case (Object(x), Object(y)) =>
      ObjectReordering(x, y, a, b);
    case _ =>
  }

  lemma {:induction false} ObjectReordering(x: seq<Member>, y: seq<Member>, a: Json, b: Json)
    requires a == Object(x) && b == Object(y) && NoDuplicates(a) && NoDuplicates(b)
    ensures CanonicalMembers(x) == CanonicalMembers(y) <==> Reordered(a, b)
    decreases a, 0
  {
    hide Canonical, CanonicalMembers;
    forall i, j | 0 <= i < |x| && 0 <= j < |y|
      ensures Canonical(x[i].value) == Canonical(y[j].value) <==> Reordered(x[i].value, y[j].value)
    {
      assert x[i] in x && y[j] in y;
      CanonicalIsReordering(x[i].value, y[j].value);
    }
    if CanonicalMembers(x) == CanonicalMembers(y) {
      var p, q := TablesPair(x, y);
      PairsTable(x, y, p, q);
    }
    if Reordered(a, b) {
      var p, q :| Pairs(x, y, p, q) && forall i | 0 <= i < |x| :: Reordered(x[i].value, y[p[i]].value);
      PairsTable(x, y, p, q);
    }
  }
}
