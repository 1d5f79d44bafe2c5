/** The RAM file system's elements, linked by child, sabling and parent pointers, and the
    map from component lists to elements that they stand for. */
module RamfsTree {
  import opened VfsPaths

  type Ptr = nat

  const NULL: Ptr := 0

  /** LOS_MAX_FILE_NAME_LEN, which counts the terminating NUL. */
  const MAX_NAME: nat := 16

  type Byte = char

  datatype Body = Dir(child: Ptr) | File(content: seq<Byte>)

  datatype Element = Element(name: Path, sabling: Ptr, parent: Ptr, refs: nat, body: Body)

  type Elements = map<Ptr, Element>

  /** A root and a list of components below it. */
  type Key = (Ptr, seq<Path>)

  /** What the pointers stand for: the list of entries of every directory, the element of
      every component list, and the component list of every element. */
  datatype Shape = Shape(kids: map<Ptr, seq<Ptr>>, names: map<Key, Ptr>, paths: map<Ptr, Key>)

  predicate GoodName(n: Path) {
    IsName(n) && |n| < MAX_NAME
  }

  /** Following sabling from p visits s. */
  predicate Chain(es: Elements, p: Ptr, s: seq<Ptr>)
    decreases |s|
  {
    if s == [] then p == NULL
    else p == s[0] && p in es && p != NULL && Chain(es, es[p].sabling, s[1..])
  }

  predicate NoDuplicates(s: seq<Ptr>) {
    forall j, k | 0 <= j < k < |s| :: s[j] != s[k]
  }

  ghost predicate Bijective(es: Elements, sh: Shape) {
    && NULL !in es && sh.paths.Keys == es.Keys
    && (forall e | e in es :: sh.paths[e] in sh.names && sh.names[sh.paths[e]] == e)
    && (forall k | k in sh.names :: sh.names[k] in es && sh.paths[sh.names[k]] == k)
  }

  function Parent(k: Key): Key
    requires k.1 != []
  {
    (k.0, k.1[..|k.1| - 1])
  }

  predicate LinkedAt(es: Elements, sh: Shape, e: Ptr)
    requires e in es
  {
    && e in sh.paths
    && var k := sh.paths[e];
    if k.1 == [] then e == k.0 && es[e].parent == NULL && es[e].body.Dir?
    else
      var d := es[e].parent;
      && d in es && es[d].body.Dir? && d in sh.paths && sh.paths[d] == Parent(k)
      && es[e].name == k.1[|k.1| - 1] && GoodName(es[e].name)
  }

  ghost predicate ChainedAt(es: Elements, sh: Shape, d: Ptr)
    requires d in es && es[d].body.Dir?
  {
    && d in sh.kids && NoDuplicates(sh.kids[d]) && Chain(es, es[d].body.child, sh.kids[d])
    && (forall e: Ptr :: e in sh.kids[d] <==> e in es && es[e].parent == d)
  }

  ghost predicate Valid(es: Elements, sh: Shape) {
    && Bijective(es, sh)
    && (forall e {:trigger LinkedAt(es, sh, e)} | e in es :: LinkedAt(es, sh, e))
    && (forall d {:trigger ChainedAt(es, sh, d)} | d in es && es[d].body.Dir? :: ChainedAt(es, sh, d))
  }

  predicate IsDir(es: Elements, e: Ptr) {
    e in es && es[e].body.Dir?
  }

  // ---- what the shape says about names ----

  lemma UpNamed(es: Elements, sh: Shape, k: Key)
    requires Valid(es, sh) && k in sh.names && k.1 != []
    ensures Parent(k) in sh.names && IsDir(es, sh.names[Parent(k)]) && GoodName(k.1[|k.1| - 1])
    ensures es[sh.names[k]].parent == sh.names[Parent(k)]
  {
    var e := sh.names[k];
    assert LinkedAt(es, sh, e);
    assert sh.names[sh.paths[es[e].parent]] == es[e].parent;
  }

  /** Everything above a named element is a named directory. */
  lemma {:induction false} PrefixNamed(es: Elements, sh: Shape, root: Ptr, cs: seq<Path>, k: nat)
    requires Valid(es, sh) && (root, cs) in sh.names && k <= |cs|
    ensures (root, cs[..k]) in sh.names
    ensures k < |cs| ==> IsDir(es, sh.names[(root, cs[..k])]) && GoodName(cs[k])
    decreases |cs|
  {
    hide Valid;
    if k == |cs| {
      assert cs[..k] == cs;
    } else {
      UpNamed(es, sh, (root, cs));
      var up := cs[..|cs| - 1];
      PrefixNamed(es, sh, root, up, k);
      assert up[..k] == cs[..k];
    }
  }

  /** The entries of a directory are the elements named one component further. */
  lemma EntryNamed(es: Elements, sh: Shape, d: Ptr, e: Ptr)
    requires Valid(es, sh) && IsDir(es, d) && d in sh.kids && e in sh.kids[d]
    ensures d in sh.paths
    ensures e in es && GoodName(es[e].name)
    ensures sh.paths[e] == (sh.paths[d].0, sh.paths[d].1 + [es[e].name])
    ensures sh.paths[e] in sh.names && sh.names[sh.paths[e]] == e
  {
    KidsParent(es, sh, d, e);
    hide ChainedAt, GoodName;
    assert LinkedAt(es, sh, e) && sh.names[sh.paths[e]] == e;
    assert sh.paths[e].1 != [] by { assert es[e].parent != NULL; }
    KeyOfParent(sh.paths[e]);
  }

  lemma KidsParent(es: Elements, sh: Shape, d: Ptr, e: Ptr)
    requires Valid(es, sh) && IsDir(es, d) && d in sh.kids && e in sh.kids[d]
    ensures e in es && es[e].parent == d && d != NULL
  {
    assert ChainedAt(es, sh, d);
  }

  lemma KeyOfParent(k: Key)
    requires k.1 != []
    ensures k == (Parent(k).0, Parent(k).1 + [k.1[|k.1| - 1]])
  {
    assert k.1 == k.1[..|k.1| - 1] + [k.1[|k.1| - 1]];
  }

  lemma NamedEntry(es: Elements, sh: Shape, d: Ptr, n: Path)
    requires Valid(es, sh) && IsDir(es, d) && d in sh.kids
    requires (sh.paths[d].0, sh.paths[d].1 + [n]) in sh.names
    ensures sh.names[(sh.paths[d].0, sh.paths[d].1 + [n])] in sh.kids[d]
    ensures es[sh.names[(sh.paths[d].0, sh.paths[d].1 + [n])]].name == n
  {
    var key := (sh.paths[d].0, sh.paths[d].1 + [n]);
    var e := sh.names[key];
    assert LinkedAt(es, sh, e) && ChainedAt(es, sh, d);
    assert Parent(key) == sh.paths[d] by {
      assert (sh.paths[d].1 + [n])[..|sh.paths[d].1|] == sh.paths[d].1;
    }
    assert sh.names[sh.paths[es[e].parent]] == es[e].parent;
  }

  /** Sibling names are unique. */
  lemma SiblingsDiffer(es: Elements, sh: Shape, d: Ptr, a: Ptr, b: Ptr)
    requires Valid(es, sh) && IsDir(es, d) && d in sh.kids && a in sh.kids[d] && b in sh.kids[d] && a != b
    ensures a in es && b in es && es[a].name != es[b].name
  {
    hide Valid;
    EntryNamed(es, sh, d, a);
    EntryNamed(es, sh, d, b);
  }

  // ---- chains ----

  lemma {:induction false} ChainFrame(es: Elements, fs: Elements, p: Ptr, s: seq<Ptr>)
    requires Chain(es, p, s)
    requires forall e | e in s :: e in fs && e in es && fs[e].sabling == es[e].sabling
    ensures Chain(fs, p, s)
    decreases |s|
  {
    if s != [] {
      assert s[0] in s;
      assert forall e | e in s[1..] :: e in s;
      ChainFrame(es, fs, es[p].sabling, s[1..]);
    }
  }

  lemma {:induction false} ChainIn(es: Elements, p: Ptr, s: seq<Ptr>, j: nat)
    requires Chain(es, p, s) && j <= |s|
    ensures j < |s| ==> s[j] in es && s[j] != NULL
    ensures j > 0 ==> s[j - 1] in es
    ensures Chain(es, if j == 0 then p else es[s[j - 1]].sabling, s[j..])
    decreases j
  {
    if j == 0 {
      assert s[0..] == s;
    } else {
      ChainIn(es, es[p].sabling, s[1..], j - 1);
      assert s[1..][j - 1..] == s[j..];
      assert j > 1 ==> s[1..][j - 2] == s[j - 1];
    }
  }

  function Without(s: seq<Ptr>, j: nat): seq<Ptr>
    requires j < |s|
  {
    s[..j] + s[j + 1..]
  }

  /** Bypassing the j-th element of a chain, which is not its first. */
  lemma {:induction false} ChainBypass(es: Elements, fs: Elements, p: Ptr, s: seq<Ptr>, j: nat)
    requires Chain(es, p, s) && NoDuplicates(s) && 0 < j < |s| && s[j] in es
    requires forall e | e in s && e != s[j] :: e in fs && e in es
    requires forall e | e in s && e != s[j] && e != s[j - 1] :: fs[e].sabling == es[e].sabling
    requires fs[s[j - 1]].sabling == es[s[j]].sabling
    ensures Chain(fs, p, Without(s, j))
    decreases j
  {
    assert s[0] in s && s[j - 1] in s;
    var t := s[1..];
    assert forall e | e in t :: e in s;
    assert Without(s, j)[0] == s[0];
    if j == 1 {
      ChainIn(es, p, s, 2);
      assert Without(s, j)[1..] == s[2..];
      assert forall e | e in s[2..] :: e in s && e != s[0] && e != s[1];
      ChainFrame(es, fs, es[s[1]].sabling, s[2..]);
    } else {
      assert t[j - 1] == s[j] && t[j - 2] == s[j - 1];
      ChainBypass(es, fs, es[p].sabling, t, j - 1);
      assert Without(s, j)[1..] == Without(t, j - 1);
    }
  }

  // ---- a new element ----

  function Inserted(es: Elements, d: Ptr, e: Ptr, n: Path, refs: nat, body: Body): Elements
    requires IsDir(es, d)
  {
    es[e := Element(n, es[d].body.child, d, refs, body)][d := es[d].(body := Dir(e))]
  }

  function InsertedShape(es: Elements, sh: Shape, d: Ptr, e: Ptr, n: Path): Shape
    requires d in sh.paths && d in sh.kids
  {
    var key := (sh.paths[d].0, sh.paths[d].1 + [n]);
    Shape(sh.kids[e := []][d := [e] + sh.kids[d]], sh.names[key := e], sh.paths[e := key])
  }

  lemma InsertKeepsNames(es: Elements, sh: Shape, d: Ptr, e: Ptr, n: Path, refs: nat, body: Body)
    requires Valid(es, sh) && IsDir(es, d) && e !in es && e != NULL && GoodName(n) && body in {Dir(NULL), File([])}
    requires (sh.paths[d].0, sh.paths[d].1 + [n]) !in sh.names
    ensures d in sh.kids && Bijective(Inserted(es, d, e, n, refs, body), InsertedShape(es, sh, d, e, n))
    ensures var fs, rh := Inserted(es, d, e, n, refs, body), InsertedShape(es, sh, d, e, n);
            forall x | x in fs :: LinkedAt(fs, rh, x)
  {
    assert ChainedAt(es, sh, d);
    var fs, rh := Inserted(es, d, e, n, refs, body), InsertedShape(es, sh, d, e, n);
    forall x | x in fs
      ensures LinkedAt(fs, rh, x)
    {
      if x != e {
        assert LinkedAt(es, sh, x);
      } else {
        var cs := sh.paths[d].1;
        assert (cs + [n])[..|cs|] == cs;
      }
    }
  }

  lemma InsertKeepsChains(es: Elements, sh: Shape, d: Ptr, e: Ptr, n: Path, refs: nat, body: Body, x: Ptr)
    requires Valid(es, sh) && IsDir(es, d) && e !in es && e != NULL && body in {Dir(NULL), File([])}
    requires IsDir(Inserted(es, d, e, n, refs, body), x)
    ensures d in sh.paths && d in sh.kids
    ensures ChainedAt(Inserted(es, d, e, n, refs, body), InsertedShape(es, sh, d, e, n), x)
  {
    hide LinkedAt, Chain;
    assert ChainedAt(es, sh, d) && d in sh.paths;
    NoOrphans(es, sh, e);
    if x != e {
      assert ChainedAt(es, sh, x);
    }
    hide Valid;
    InsertChains(es, sh, d, e, n, refs, body, x);
  }

  lemma InsertChains(es: Elements, sh: Shape, d: Ptr, e: Ptr, n: Path, refs: nat, body: Body, x: Ptr)
    requires IsDir(es, d) && e !in es && e != NULL && body in {Dir(NULL), File([])}
    requires d in sh.paths && ChainedAt(es, sh, d) && forall y | y in es :: es[y].parent != e
    requires IsDir(Inserted(es, d, e, n, refs, body), x) && (x != e ==> IsDir(es, x) && ChainedAt(es, sh, x))
    ensures ChainedAt(Inserted(es, d, e, n, refs, body), InsertedShape(es, sh, d, e, n), x)
  {
    hide Chain;
    var fs := Inserted(es, d, e, n, refs, body);
    if x == e {
      ChainEmpty(fs);
    } else {
      ChainFrame(es, fs, es[x].body.child, sh.kids[x]);
      if x == d {
        ChainPrepend(fs, e, sh.kids[d]);
        HeadIsNew(e, sh.kids[d]);
      }
    }
  }

  lemma ChainEmpty(es: Elements)
    ensures Chain(es, NULL, [])
  {
  }

  lemma ChainPrepend(es: Elements, e: Ptr, s: seq<Ptr>)
    requires e in es && e != NULL && Chain(es, es[e].sabling, s)
    ensures Chain(es, e, [e] + s)
  {
    assert ([e] + s)[1..] == s;
  }

  lemma HeadIsNew(e: Ptr, s: seq<Ptr>)
    requires e !in s && NoDuplicates(s)
    ensures NoDuplicates([e] + s)
    ensures forall x: Ptr :: x in [e] + s <==> x == e || x in s
  {
  }

  lemma NoOrphans(es: Elements, sh: Shape, e: Ptr)
    requires Valid(es, sh) && e !in es && e != NULL
    ensures forall x | x in es :: es[x].parent != e
  {
    forall x | x in es
      ensures es[x].parent != e
    {
      assert LinkedAt(es, sh, x);
    }
  }

  /** Inserting an element under an unused name keeps the tree a tree. */
  lemma InsertKeepsValid(es: Elements, sh: Shape, d: Ptr, e: Ptr, n: Path, refs: nat, body: Body)
    requires Valid(es, sh) && IsDir(es, d) && e !in es && e != NULL && GoodName(n) && body in {Dir(NULL), File([])}
    requires (sh.paths[d].0, sh.paths[d].1 + [n]) !in sh.names
    ensures d in sh.kids && Valid(Inserted(es, d, e, n, refs, body), InsertedShape(es, sh, d, e, n))
  {
    assert ChainedAt(es, sh, d);
    assert d in sh.paths;
    hide Bijective, LinkedAt, ChainedAt;
    InsertKeepsNames(es, sh, d, e, n, refs, body);
    var fs, rh := Inserted(es, d, e, n, refs, body), InsertedShape(es, sh, d, e, n);
    forall x | x in fs && fs[x].body.Dir?
      ensures ChainedAt(fs, rh, x)
    {
      InsertKeepsChains(es, sh, d, e, n, refs, body, x);
    }
  }
}
