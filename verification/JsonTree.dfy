/** The tree in memory: nodes in doubly linked lists, edited in place, and copied. */
module JsonTree {
  import opened Basics
  import opened JsonText

  /** The type tag with the value that belongs to it. */
  datatype Payload =
    | NullNode
    | FalseNode
    | TrueNode
    | NumberNode(token: string)
    | StringNode(value: string)
    | ArrayNode
    | ObjectNode

  class Node {
    var payload: Payload
    var key: Option<string>
    var next: Node?
    var prev: Node?
    var child: Node?
    /** The items of the list below this node, and all nodes of its tree. */
    ghost var kids: seq<Node>
    ghost var repr: set<Node>

    /** cJSON_New_Item: everything is zero. */
    constructor (payload: Payload, key: Option<string>)
      ensures this.payload == payload && this.key == key && next == null && prev == null && child == null
      ensures kids == [] && repr == {this}
    {
      this.payload, this.key := payload, key;
      next, prev, child := null, null, null;
      kids, repr := [], {this};
    }
  }

  predicate Distinct(items: seq<Node>) {
    forall i, j | 0 <= i < j < |items| :: items[i] != items[j]
  }

  /** Item number i, or null beyond the ends. */
  function At(items: seq<Node>, i: int): Node? {
    if 0 <= i < |items| then items[i] else null
  }

  ghost function Nodes(items: seq<Node>): set<Node> {
    set n | n in items
  }

  /** The list below parent is items, with all its links. */
  ghost predicate Linked(parent: Node, items: seq<Node>)
    reads parent`child, Nodes(items)`next, Nodes(items)`prev
  {
    && Distinct(items)
    && parent.child == At(items, 0)
    && (forall i {:trigger items[i].next} | 0 <= i < |items| :: items[i].next == At(items, i + 1))
    && (forall i {:trigger items[i].prev} | 0 <= i < |items| :: items[i].prev == At(items, i - 1))
  }

  // ---- looking items up ----

  method GetArraySize(list: Node, ghost items: seq<Node>) returns (size: nat)
    requires Linked(list, items)
    ensures size == |items|
  {
    size := 0;
    var child := list.child;
    while child != null
      invariant size <= |items| && child == At(items, size)
      decreases |items| - size
    {
      size := size + 1;
      child := child.next;
    }
  }

  /** get_array_item */
  method GetArrayItem(list: Node, index: nat, ghost items: seq<Node>) returns (r: Node?)
    requires Linked(list, items)
    ensures r == At(items, index)
  {
    var i := index;
    r := list.child;
    while r != null && i > 0
      invariant 0 <= i <= index && index - i <= |items| && r == At(items, index - i)
    {
      i := i - 1;
      r := r.next;
    }
  }

  /** get_object_item, case sensitive: the first item with the key. */
  method GetObjectItem(parent: Node, name: string, ghost items: seq<Node>) returns (r: Node?, ghost k: nat)
    requires Linked(parent, items)
    ensures k <= |items| && (forall j | 0 <= j < k :: items[j].key != Some(name))
    ensures if k < |items| then r == items[k] && r.key == Some(name) else r == null
  {
    k := 0;
    r := parent.child;
    while r != null && r.key != Some(name)
      invariant k <= |items| && r == At(items, k)
      invariant forall j | 0 <= j < k :: items[j].key != Some(name)
      decreases |items| - k
    {
      k := k + 1;
      r := r.next;
    }
  }

  // ---- edits ----

  /** add_item_to_array: at the end of the list.  The item must not be in a list. */
  method AddItem(list: Node, item: Node, ghost items: seq<Node>)
    requires Linked(list, items) && item !in items && item.next == null && item.prev == null
    modifies list`child, item`prev, Nodes(items)`next
    ensures Linked(list, items + [item])
  {
    assert forall i | 0 <= i < |items| :: items[i] in items;
    var child := list.child;
    if child == null {
      list.child := item;
    } else {
      ghost var k := 0;
      while child.next != null
        invariant k < |items| && child == items[k]
        decreases |items| - k
      {
        child := child.next;
        k := k + 1;
      }
      child.next := item;
      item.prev := child;
    }
  }

  function Left(items: seq<Node>, k: nat): seq<Node>
    requires k < |items|
  {
    items[..k] + items[k + 1..]
  }

  lemma LeftItems(items: seq<Node>, k: nat)
    requires k < |items| && Distinct(items)
    ensures Distinct(Left(items, k))
    ensures forall i | 0 <= i < |items| - 1 :: Left(items, k)[i] == items[if i < k then i else i + 1]
    ensures forall i | 0 <= i < |items| && i != k :: items[i] != items[k]
  {
    var rest := Left(items, k);
    assert forall i | 0 <= i < |rest| :: rest[i] == items[if i < k then i else i + 1];
  }

  /** cJSON_DetachItemViaPointer: item number k leaves the list and is in none. */
  method Detach(parent: Node, item: Node, ghost items: seq<Node>, ghost k: nat)
    requires Linked(parent, items) && k < |items| && item == items[k]
    modifies parent`child, Nodes(items)`next, Nodes(items)`prev
    ensures Linked(parent, Left(items, k))
    ensures item.next == null && item.prev == null
  {
    assert forall i | 0 <= i < |items| && i != k :: items[i] != items[k];
    assert k > 0 ==> items[k - 1] in items;
    assert k + 1 < |items| ==> items[k + 1] in items;
    assert item.prev == At(items, k - 1) && item.next == At(items, k + 1);
    if item.prev != null {
      item.prev.next := item.next;
    }
    if item.next != null {
      item.next.prev := item.prev;
    }
    if item == parent.child {
      parent.child := item.next;
    }
    item.prev := null;
    item.next := null;
    DetachedLinks(parent, items, k);
  }

  lemma DetachedLinks(parent: Node, items: seq<Node>, k: nat)
    requires k < |items| && Distinct(items) && parent.child == At(items, if k == 0 then 1 else 0)
    requires forall i {:trigger items[i].next} | 0 <= i < |items| && i != k ::
               items[i].next == At(items, if i == k - 1 then k + 1 else i + 1)
    requires forall i {:trigger items[i].prev} | 0 <= i < |items| && i != k ::
               items[i].prev == At(items, if i == k + 1 then k - 1 else i - 1)
    ensures Linked(parent, Left(items, k))
  {
    LeftItems(items, k);
    hide Left, Distinct;
  }

  function Longer(items: seq<Node>, k: nat, n: Node): seq<Node>
    requires k <= |items|
  {
    items[..k] + [n] + items[k..]
  }

  lemma LongerItems(items: seq<Node>, k: nat, n: Node)
    requires k <= |items| && Distinct(items) && n !in items
    ensures |Longer(items, k, n)| == |items| + 1 && Distinct(Longer(items, k, n))
    ensures forall i | 0 <= i < |items| + 1 ::
              Longer(items, k, n)[i] == if i < k then items[i] else if i == k then n else items[i - 1]
    ensures k == |items| ==> Longer(items, k, n) == items + [n]
  {
  }

  /** cJSON_InsertItemInArray: before item number which, or at the end. */
  method Insert(list: Node, which: int, newItem: Node, ghost items: seq<Node>)
    requires Linked(list, items) && newItem !in items
    requires which >= |items| ==> newItem.next == null && newItem.prev == null
    modifies list`child, newItem`next, newItem`prev, Nodes(items)`next, Nodes(items)`prev
    ensures which < 0 ==> Linked(list, items)
    ensures which >= 0 ==> Linked(list, Longer(items, if which < |items| then which else |items|, newItem))
  {
    if which < 0 {
      return;
    }
    var after := GetArrayItem(list, which, items);
    if after == null {
      AddItem(list, newItem, items);
      LongerItems(items, |items|, newItem);
      return;
    }
    InsertBefore(list, after, newItem, items, which);
  }

  /** The end of cJSON_InsertItemInArray, where there is an item to insert before. */
  method InsertBefore(list: Node, after: Node, newItem: Node, ghost items: seq<Node>, ghost k: nat)
    requires Linked(list, items) && newItem !in items && k < |items| && after == items[k]
    modifies list`child, newItem`next, newItem`prev, Nodes(items)`next, Nodes(items)`prev
    ensures Linked(list, Longer(items, k, newItem))
  {
    assert forall i | 0 <= i < |items| :: items[i] != newItem;
    assert forall i | 0 <= i < |items| && i != k :: items[i] != items[k];
    assert k > 0 ==> items[k - 1] in items;
    assert after in items && after.prev == At(items, k - 1);
    newItem.next := after;
    newItem.prev := after.prev;
    after.prev := newItem;
    if after == list.child {
      list.child := newItem;
    } else {
      newItem.prev.next := newItem;
    }
    InsertedLinks(list, items, k, newItem);
  }

  lemma InsertedLinks(list: Node, items: seq<Node>, k: nat, n: Node)
    requires k < |items| && Distinct(items) && n !in items
    requires list.child == (if k == 0 then n else At(items, 0)) && n.next == items[k] && n.prev == At(items, k - 1)
    requires forall i {:trigger items[i].next} | 0 <= i < |items| ::
               items[i].next == if i == k - 1 then n else At(items, i + 1)
    requires forall i {:trigger items[i].prev} | 0 <= i < |items| ::
               items[i].prev == if i == k then n else At(items, i - 1)
    ensures Linked(list, Longer(items, k, n))
  {
    LongerItems(items, k, n);
    hide Longer, Distinct;
  }

  lemma ReplacedItems(items: seq<Node>, k: nat, n: Node)
    requires k < |items| && Distinct(items) && n !in items
    ensures Distinct(items[k := n])
    ensures forall i | 0 <= i < |items| && i != k :: items[i] != items[k]
    ensures forall i | 0 <= i < |items| :: items[i] != n
  {
  }

  /** cJSON_ReplaceItemViaPointer: item number k makes room for replacement. */
  method Replace(parent: Node, item: Node, replacement: Node, ghost items: seq<Node>, ghost k: nat)
    requires Linked(parent, items) && k < |items| && item == items[k]
    requires replacement == item || replacement !in items
    modifies parent`child, replacement`next, replacement`prev, Nodes(items)`next, Nodes(items)`prev
    ensures Linked(parent, items[k := replacement])
    ensures replacement != item ==> item.next == null && item.prev == null
  {
    if replacement == item {
      return;
    }
    ReplacedItems(items, k, replacement);
    assert k > 0 ==> items[k - 1] in items;
    assert k + 1 < |items| ==> items[k + 1] in items;
    assert item in items && item.prev == At(items, k - 1) && item.next == At(items, k + 1);
    replacement.next := item.next;
    replacement.prev := item.prev;
    if replacement.next != null {
      replacement.next.prev := replacement;
    }
    if replacement.prev != null {
      replacement.prev.next := replacement;
    }
    if parent.child == item {
      parent.child := replacement;
    }
    item.next := null;
    item.prev := null;
    ReplacedLinks(parent, items, k, replacement);
  }

  lemma ReplacedLinks(parent: Node, items: seq<Node>, k: nat, n: Node)
    requires k < |items| && Distinct(items) && n !in items && parent.child == (if k == 0 then n else At(items, 0))
    requires n.next == At(items, k + 1) && n.prev == At(items, k - 1)
    requires forall i {:trigger items[i].next} | 0 <= i < |items| && i != k ::
               items[i].next == if i == k - 1 then n else At(items, i + 1)
    requires forall i {:trigger items[i].prev} | 0 <= i < |items| && i != k ::
               items[i].prev == if i == k + 1 then n else At(items, i - 1)
    ensures Linked(parent, items[k := n])
  {
    ReplacedItems(items, k, n);
    hide Distinct;
  }

  /** cJSON_DetachItemFromArray */
  method DetachFromArray(list: Node, which: int, ghost items: seq<Node>) returns (r: Node?)
    requires Linked(list, items)
    modifies list`child, Nodes(items)`next, Nodes(items)`prev
    ensures if 0 <= which < |items| then r == items[which] && Linked(list, Left(items, which))
            else r == null && Linked(list, items)
  {
    if which < 0 {
      return null;
    }
    r := GetArrayItem(list, which, items);
    if r != null {
      Detach(list, r, items, which);
    }
  }

  /** replace_item_in_object, case sensitive: the first item with the key makes room.  The call
      succeeds also when there is none. */
  method ReplaceInObject(parent: Node, name: string, replacement: Node, ghost items: seq<Node>)
    returns (ok: bool, ghost k: nat)
    requires Linked(parent, items) && replacement !in items
    modifies parent`child, replacement`key, replacement`next, replacement`prev, Nodes(items)`next, Nodes(items)`prev
    ensures ok && replacement.key == Some(name)
    ensures k <= |items| && (forall j | 0 <= j < k :: items[j].key != Some(name))
    ensures if k < |items| then items[k].key == Some(name) && Linked(parent, items[k := replacement])
            else Linked(parent, items)
  {
    replacement.key := Some(name);
    var item;
    item, k := GetObjectItem(parent, name, items);
    if item != null {
      Replace(parent, item, replacement, items, k);
    }
    return true, k;
  }

  // ---- copies ----

  ghost function Items(v: Json): seq<Json> {
    match v
    case Array(items) => items
    case Object(members) => seq(|members|, i requires 0 <= i < |members| => members[i].value)
    case _ => []
  }

  predicate Tagged(p: Payload, v: Json) {
    match v
    case Null => p == NullNode
    case False => p == FalseNode
    case True => p == TrueNode
    case Number(token) => p == NumberNode(token)
    case Str(value) => p == StringNode(value)
    case Array(_) => p == ArrayNode
    case Object(_) => p == ObjectNode
  }

  ghost predicate Keyed(kids: seq<Node>, v: Json)
    reads Nodes(kids)`key
  {
    v.Object? ==> |kids| == |v.members| && forall i | 0 <= i < |kids| :: kids[i].key == Some(v.members[i].key)
  }

  /** The trees of these nodes lie apart, all within within. */
  ghost predicate Apart(kids: seq<Node>, within: set<Node>)
    reads Nodes(kids)`repr
  {
    && Nodes(kids) <= within
    && (forall k | k in Nodes(kids) :: k in k.repr && k.repr <= within)
    && (forall j, k | j in Nodes(kids) && k in Nodes(kids) && j != k :: j.repr !! k.repr)
  }

  /** The tree below n is the value v. */
  ghost predicate Represents(n: Node, v: Json)
    reads n`payload, n`child, n`kids, n`repr
    reads n.repr`payload, n.repr`key, n.repr`child, n.repr`kids, n.repr`repr
    reads (n.repr - {n})`next, (n.repr - {n})`prev
    decreases v
  {
    && n in n.repr && Tagged(n.payload, v) && Nodes(n.kids) <= n.repr - {n}
    && Apart(n.kids, n.repr - {n}) && Linked(n, n.kids) && Keyed(n.kids, v)
    && (v.Array? ==>
          |n.kids| == |v.items| && forall i | 0 <= i < |v.items| ::
            n.kids[i] in Nodes(n.kids) && Represents(n.kids[i], v.items[i]))
    && (v.Object? ==>
          |n.kids| == |v.members| && forall i | 0 <= i < |v.members| ::
            n.kids[i] in Nodes(n.kids) && Represents(n.kids[i], v.members[i].value))
    && (!v.Array? && !v.Object? ==> n.kids == [])
  }

  /** The list below r holds, in separate trees, the values of items under the keys of the
      originals. */
  ghost predicate Copied(r: Node, originals: seq<Node>, items: seq<Json>)
    reads r`child, r`kids, r`repr, Nodes(originals)`key, r.repr - {r}
  {
    && |r.kids| == |items| == |originals| && r in r.repr
    && Nodes(r.kids) <= r.repr - {r} && Apart(r.kids, r.repr - {r}) && Linked(r, r.kids)
    && (forall i | 0 <= i < |items| ::
          r.kids[i] in Nodes(r.kids) && originals[i] in Nodes(originals)
          && r.kids[i].key == originals[i].key && Represents(r.kids[i], items[i]))
  }

  /** The assignments that link c behind the last copy. */
  method LinkLast(r: Node, tail: Node?, c: Node, ghost kids: seq<Node>)
    requires Linked(r, kids) && tail == At(kids, |kids| - 1) && c !in kids && c.next == null && c.prev == null
    modifies r`child, c`prev, Nodes(kids)`next
    ensures Linked(r, kids + [c])
  {
    if tail != null {
      assert tail in Nodes(kids);
      tail.next := c;
      c.prev := tail;
    } else {
      r.child := c;
    }
    AppendedLinks(r, kids, c);
  }

  /** They change nothing in the trees of the copies. */
  method LinkTree(r: Node, tail: Node?, c: Node, ghost kids: seq<Node>, ghost items: seq<Json>,
                  ghost within: set<Node>, ghost item: Json)
    requires Linked(r, kids) && tail == At(kids, |kids| - 1) && c !in kids && c.next == null && c.prev == null
    requires |kids| == |items| && Apart(kids, within) && r !in within && c !in within
    requires forall i | 0 <= i < |items| :: Represents(kids[i], items[i])
    requires Represents(c, item) && r !in c.repr && c.repr !! within
    modifies r`child, c`prev, Nodes(kids)`next
    ensures Linked(r, kids + [c]) && Apart(kids, within)
    ensures forall i | 0 <= i < |items| :: Represents(kids[i], items[i])
    ensures Represents(c, item)
  {
    RootIn(c, item);
    hide Represents, At, Linked;
    forall i | 0 <= i < |items|
      ensures kids[i] in Nodes(kids) && r !in kids[i].repr && c !in kids[i].repr
      ensures Nodes(kids) !! (kids[i].repr - {kids[i]})
    {
    }
    assert Nodes(kids) !! c.repr;
    LinkLast(r, tail, c, kids);
  }

  /** The ghost fields follow. */
  ghost method Absorb(r: Node, c: Node, kids: seq<Node>, items: seq<Json>, within: set<Node>, item: Json)
    requires |kids| == |items| && Apart(kids, within) && r !in within && r !in c.repr
    requires forall i | 0 <= i < |items| :: Represents(kids[i], items[i])
    requires Represents(c, item)
    modifies r`kids, r`repr
    ensures r.kids == kids + [c] && r.repr == {r} + within + c.repr && c.repr == old(c.repr)
    ensures forall i | 0 <= i < |items| :: Represents(kids[i], items[i])
    ensures Represents(c, item)
  {
    RootIn(c, item);
    hide Represents;
    forall i | 0 <= i < |items|
      ensures kids[i] in Nodes(kids) && r !in kids[i].repr
    {
    }
    r.kids := kids + [c];
    r.repr := {r} + within + c.repr;
  }

  /** Linking one more copy behind the last one. */
  method AppendCopy(r: Node, tail: Node?, c: Node, ghost originals: seq<Node>, ghost items: seq<Json>,
                    ghost original: Node, ghost item: Json)
    requires Copied(r, originals, items) && tail == At(r.kids, |r.kids| - 1)
    requires Represents(c, item) && c.repr !! r.repr && c.next == null && c.prev == null && c.key == original.key
    modifies r`child, r`kids, r`repr, c`prev, Nodes(r.kids)`next
    ensures Copied(r, originals + [original], items + [item]) && Nodes(r.kids) <= r.repr - {r}
    ensures r.kids == old(r.kids) + [c] && r.repr == old(r.repr) + c.repr
  {
    hide Represents, Apart, Linked, Copied, Nodes, At;
    RootIn(c, item);
    ghost var kids := r.kids;
    ghost var within := r.repr - {r};
    ghost var more := c.repr;
    CopiedWas(r, originals, items);
    NotIn(kids, c, within);
    LinkTree(r, tail, c, kids, items, within, item);
    AppendedApart(kids, c, within, more);
    Absorb(r, c, kids, items, within, item);
    CopiedNow(r, c, originals, items, original, item, within, more, kids);
  }

  lemma NotIn(kids: seq<Node>, c: Node, within: set<Node>)
    requires Apart(kids, within) && c !in within
    ensures c !in kids
  {
    assert c !in Nodes(kids);
  }

  lemma CopiedWas(r: Node, originals: seq<Node>, items: seq<Json>)
    requires Copied(r, originals, items)
    ensures r in r.repr && Apart(r.kids, r.repr - {r}) && Linked(r, r.kids) && |r.kids| == |items| == |originals|
    ensures forall i | 0 <= i < |items| :: r.kids[i].key == originals[i].key && Represents(r.kids[i], items[i])
    ensures forall i | 0 <= i < |items| :: r.kids[i] in r.repr - {r}
  {
    hide Represents;
  }

  lemma CopiedNow(r: Node, c: Node, originals: seq<Node>, items: seq<Json>, original: Node, item: Json,
                  within: set<Node>, more: set<Node>, kids: seq<Node>)
    requires |kids| == |items| == |originals| && r.kids == kids + [c] && r.repr == {r} + within + more
    requires r !in within && r !in more && Linked(r, kids + [c])
    requires Nodes(kids + [c]) <= within + more && Apart(kids + [c], within + more)
    requires forall i | 0 <= i < |items| :: kids[i].key == originals[i].key && Represents(kids[i], items[i])
    requires c.key == original.key && Represents(c, item)
    ensures Copied(r, originals + [original], items + [item])
  {
    hide Represents, Apart, Linked;
    assert r.repr - {r} == within + more;
    assert forall n | n in kids + [c] :: n in Nodes(kids + [c]);
    assert forall n | n in originals + [original] :: n in Nodes(originals + [original]);
  }

  lemma RootIn(n: Node, v: Json)
    requires Represents(n, v)
    ensures n in n.repr
  {
  }

  lemma AppendedLinks(list: Node, items: seq<Node>, n: Node)
    requires Distinct(items) && n !in items && n.next == null && n.prev == At(items, |items| - 1)
    requires list.child == if items == [] then n else items[0]
    requires forall i {:trigger items[i].next} | 0 <= i < |items| ::
               items[i].next == if i == |items| - 1 then n else At(items, i + 1)
    requires forall i {:trigger items[i].prev} | 0 <= i < |items| :: items[i].prev == At(items, i - 1)
    ensures Linked(list, items + [n])
  {
  }

  lemma AppendedApart(kids: seq<Node>, c: Node, within: set<Node>, more: set<Node>)
    requires Apart(kids, within) && c in c.repr && c.repr == more && more !! within
    ensures Apart(kids + [c], within + more) && Nodes(kids + [c]) <= within + more
  {
    assert Nodes(kids + [c]) == Nodes(kids) + {c};
  }

  /** cJSON_Duplicate: a tree of new nodes for the same value; nothing only where memory
      runs out, which it never does under heap. */
  method Duplicate(n: Node, recurse: bool, heap: bool, ghost v: Json) returns (r: Node?)
    requires Represents(n, v)
    ensures heap ==> r != null
    ensures r != null ==> r.payload == n.payload && r.key == n.key && r.next == null && r.prev == null
    ensures r != null ==> r in r.repr && fresh(r.repr)
    ensures r != null && recurse ==> Represents(r, v)
    ensures r != null && !recurse ==> r.child == null
    decreases v, 1
  {
    hide Represents, Copied, Linked, Keyed, Apart, Items, Tagged;
    var failed := *;
    if failed && !heap {
      return null;
    }
    Listed(n, v);
    r := new Node(n.payload, n.key);
    if !recurse {
      return r;
    }
    var ok := DuplicateKids(r, n, heap, v);
    if !ok {
      return null;
    }
    AllCopied(r, n, v);
  }

  /** The loop of cJSON_Duplicate: copies of the children of n in a list below the new r. */
  method DuplicateKids(r: Node, n: Node, heap: bool, ghost v: Json) returns (ok: bool)
    requires Represents(n, v) && r !in n.repr && r.kids == [] && r.repr == {r} && r.child == null
    modifies r`child, r`kids, r`repr
    ensures heap ==> ok
    ensures ok ==> Represents(n, v) && Copied(r, n.kids, Items(v)) && r in r.repr && fresh(r.repr - {r})
    decreases v, 0
  {
    hide Represents, Copied, Linked, Keyed, Apart, Items, Tagged;
    ghost var items, kids := Items(v), n.kids;
    Listed(n, v);
    var child := n.child;
    var tail: Node? := null;
    ghost var i := 0;
    NothingCopied(r);
    while child != null
      invariant 0 <= i <= |kids| == |items| && child == At(kids, i) && n.kids == kids
      invariant r in r.repr && fresh(r.repr - {r}) && |r.kids| == i && tail == At(r.kids, i - 1)
      invariant Copied(r, kids[..i], items[..i]) && Nodes(r.kids) <= r.repr - {r}
      invariant Represents(n, v)
      decreases |kids| - i
    {
      ItemListed(n, v, i);
      assert forall x | x in Nodes(kids[..i]) :: allocated(x);
      label before:
      var c := Duplicate(child, true, heap, items[i]);
      assert forall x | x in r.repr :: unchanged@before(x);
      assert forall x | x in Nodes(kids[..i]) :: unchanged@before(x);
      assert Copied(r, kids[..i], items[..i]);
      if c == null {
        return false;
      }
      RootIn(c, items[i]);
      AppendCopy(r, tail, c, kids[..i], items[..i], child, items[i]);
      assert kids[..i + 1] == kids[..i] + [kids[i]] && items[..i + 1] == items[..i] + [items[i]];
      tail := c;
      child := child.next;
      i := i + 1;
    }
    assert kids[..i] == kids && items[..i] == items;
    return true;
  }

  lemma Listed(n: Node, v: Json)
    requires Represents(n, v)
    ensures |n.kids| == |Items(v)| && n.child == At(n.kids, 0) && n in n.repr && Nodes(n.kids) <= n.repr
  {
  }

  lemma NothingCopied(r: Node)
    requires r.kids == [] && r.repr == {r} && r.child == null
    ensures Copied(r, [], [])
  {
  }

  lemma ItemListed(n: Node, v: Json, i: nat)
    requires Represents(n, v) && i < |n.kids|
    ensures i < |Items(v)| && Items(v)[i] < v && Represents(n.kids[i], Items(v)[i])
            && n.kids[i].next == At(n.kids, i + 1)
  {
  }

  lemma AllCopied(r: Node, n: Node, v: Json)
    requires Represents(n, v) && Copied(r, n.kids, Items(v)) && r.payload == n.payload
    ensures Represents(r, v)
  {
  }

  // ---- reading a tree ----

  /** A tree stands for one value. */
  lemma {:induction false} OneValue(n: Node, v: Json, w: Json)
    requires Represents(n, v) && Represents(n, w)
    ensures v == w
    decreases v
  {
    match v
    case Array(x) =>
      forall i | 0 <= i < |x|
        ensures x[i] == w.items[i]
      {
        OneValue(n.kids[i], x[i], w.items[i]);
      }
    case Object(x) =>
      forall i | 0 <= i < |x|
        ensures x[i] == w.members[i]
      {
        OneValue(n.kids[i], x[i].value, w.members[i].value);
      }
    case _ =>
  }

  /** A child's tree lies within its parent's. */
  lemma Child(n: Node, v: Json, i: nat)
    requires Represents(n, v) && i < |n.kids|
    ensures |n.kids| == |Items(v)| && Represents(n.kids[i], Items(v)[i]) && n.kids[i].repr <= n.repr
    ensures n.kids[i].next == At(n.kids, i + 1)
    ensures v.Object? ==> Items(v)[i] == v.members[i].value && n.kids[i].key == Some(v.members[i].key)
    ensures Items(v)[i] < v
  {
    assert n.kids[i] in Nodes(n.kids);
  }

  lemma Kids(n: Node, v: Json)
    requires Represents(n, v)
    ensures |n.kids| == |Items(v)| && n.child == At(n.kids, 0) && n in n.repr && Tagged(n.payload, v)
    ensures Linked(n, n.kids)
  {
  }

  lemma MembersAsItems(x: seq<Member>)
    ensures |Items(Object(x))| == |x| && forall i | 0 <= i < |x| :: Items(Object(x))[i] == x[i].value
  {
  }

  lemma Keys(n: Node, v: Json)
    requires Represents(n, v) && v.Object?
    ensures |n.kids| == |v.members| && forall i | 0 <= i < |n.kids| :: n.kids[i].key == Some(v.members[i].key)
  {
  }

  // ---- trees as the parser builds them ----

  /** A new item that is in no list and has none. */
  ghost predicate Blank(n: Node)
    reads n
  {
    n.kids == [] && n.repr == {n} && n.child == null && n.next == null && n.prev == null
  }

  /** The list below r holds the values of items, and ends with tail. */
  ghost predicate Built(r: Node, tail: Node?, items: seq<Json>)
    reads r`child, r`kids, r`repr, Nodes(r.kids)`key, r.repr - {r}
  {
    && Copied(r, r.kids, items) && tail == At(r.kids, |r.kids| - 1)
    && r in r.repr && Nodes(r.kids) <= r.repr - {r}
  }

  /** The tree below r, if there is one, is the value v. */
  ghost predicate Stands(r: Node?, v: Json)
    reads r, if r == null then {} else r.repr
  {
    r != null && Represents(r, v)
  }

  ghost function Values(members: seq<Member>): (r: seq<Json>) {
    seq(|members|, i requires 0 <= i < |members| => members[i].value)
  }

  ghost predicate NamedBy(kids: seq<Node>, members: seq<Member>)
    reads Nodes(kids)`key
  {
    |kids| == |members| &&
    forall i | 0 <= i < |kids| :: kids[i] in Nodes(kids) && kids[i].key == Some(members[i].key)
  }

  /** The same for members, whose items carry the keys. */
  ghost predicate BuiltMembers(r: Node, tail: Node?, members: seq<Member>)
    reads r`child, r`kids, r`repr, Nodes(r.kids)`key, r.repr - {r}
  {
    Built(r, tail, Values(members)) && NamedBy(r.kids, members)
  }

  lemma NothingBuilt(r: Node)
    requires Blank(r)
    ensures Built(r, null, []) && BuiltMembers(r, null, [])
  {
    assert Values([]) == [];
  }

  lemma LeafStands(n: Node, v: Json)
    requires Blank(n) && Tagged(n.payload, v) && !v.Array? && !v.Object?
    ensures Represents(n, v)
  {
  }

  lemma ArrayStands(n: Node, items: seq<Json>)
    requires Copied(n, n.kids, items) && n.payload == ArrayNode
    ensures Represents(n, Array(items))
  {
  }

  lemma ObjectStands(n: Node, tail: Node?, members: seq<Member>)
    requires BuiltMembers(n, tail, members) && n.payload == ObjectNode
    ensures Represents(n, Object(members))
  {
    assert forall i | 0 <= i < |members| :: Values(members)[i] == members[i].value;
  }

  /** Links the next item behind the last one. */
  method Link(r: Node, tail: Node?, c: Node, ghost items: seq<Json>, ghost v: Json)
    requires Built(r, tail, items) && Represents(c, v) && c.repr !! r.repr && c.next == null && c.prev == null
    modifies r`child, r`kids, r`repr, c`prev, Nodes(r.kids)`next
    ensures Built(r, c, items + [v])
    ensures r.kids == old(r.kids) + [c] && r.repr == old(r.repr) + c.repr
  {
    hide Represents, Copied;
    AppendCopy(r, tail, c, r.kids, items, c, v);
  }

  method LinkMember(r: Node, tail: Node?, c: Node, ghost members: seq<Member>, ghost m: Member)
    requires BuiltMembers(r, tail, members) && Represents(c, m.value) && c.key == Some(m.key)
    requires c.repr !! r.repr && c.next == null && c.prev == null
    modifies r`child, r`kids, r`repr, c`prev, Nodes(r.kids)`next
    ensures BuiltMembers(r, c, members + [m]) && Nodes(r.kids) <= r.repr - {r}
    ensures r.kids == old(r.kids) + [c] && r.repr == old(r.repr) + c.repr
  {
    ghost var kids := r.kids;
    hide Represents, Copied;
    Link(r, tail, c, Values(members), m.value);
    hide Built;
    assert Values(members + [m]) == Values(members) + [m.value];
    assert forall i | 0 <= i <= |kids| :: (kids + [c])[i] in Nodes(kids + [c]);
  }
}
