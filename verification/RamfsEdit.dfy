/** Taking elements out of the tree and renaming them. */
module RamfsEdit {
  import opened VfsPaths
  import opened RamfsTree

  // ---- removal ----

  /** No directory with entries. */
  predicate IsLeaf(es: Elements, e: Ptr) {
    e in es && (es[e].body.File? || es[e].body.child == NULL)
  }

  lemma LeafHasNoKids(es: Elements, sh: Shape, e: Ptr)
    requires Valid(es, sh) && IsLeaf(es, e)
    ensures forall x | x in es :: es[x].parent != e
  {
    if es[e].body.Dir? {
      assert ChainedAt(es, sh, e);
      assert sh.kids[e] == [];
    }
    forall x | x in es
      ensures es[x].parent != e
    {
      assert LinkedAt(es, sh, x);
    }
  }

  /** e, which is entry j of its directory d, bypassed by the pointers and freed. */
  function Removed(es: Elements, d: Ptr, s: seq<Ptr>, j: nat): Elements
    requires j < |s| && IsDir(es, d) && s[j] in es && (j > 0 ==> s[j - 1] in es)
  {
    (if j == 0 then es[d := es[d].(body := Dir(es[s[j]].sabling))]
     else es[s[j - 1] := es[s[j - 1]].(sabling := es[s[j]].sabling)]) - {s[j]}
  }

  function RemovedShape(sh: Shape, d: Ptr, s: seq<Ptr>, j: nat): Shape
    requires j < |s| && s[j] in sh.paths
  {
    Shape(sh.kids[d := Without(s, j)], sh.names - {sh.paths[s[j]]}, sh.paths - {s[j]})
  }

  predicate Removable(es: Elements, sh: Shape, d: Ptr, j: nat) {
    && IsDir(es, d) && d in sh.kids && j < |sh.kids[d]| && IsLeaf(es, sh.kids[d][j])
    && (j > 0 ==> sh.kids[d][j - 1] in es) && sh.kids[d][j] in sh.paths
  }

  lemma RemoveKeepsNames(es: Elements, sh: Shape, d: Ptr, j: nat)
    requires Valid(es, sh) && Removable(es, sh, d, j)
    ensures Bijective(Removed(es, d, sh.kids[d], j), RemovedShape(sh, d, sh.kids[d], j))
  {
    hide LinkedAt, ChainedAt;
  }

  lemma RemoveKeepsLinks(es: Elements, sh: Shape, d: Ptr, j: nat, x: Ptr)
    requires Valid(es, sh) && Removable(es, sh, d, j)
    requires x in Removed(es, d, sh.kids[d], j)
    ensures x in RemovedShape(sh, d, sh.kids[d], j).paths
    ensures LinkedAt(Removed(es, d, sh.kids[d], j), RemovedShape(sh, d, sh.kids[d], j), x)
  {
    hide Valid, Bijective, LinkedAt;
    var e := sh.kids[d][j];
    ParentIn(es, sh, x);
    LeafHasNoKids(es, sh, e);
    RemovedKeeps(es, d, sh.kids[d], j, x);
    if es[x].parent != NULL {
      RemovedKeeps(es, d, sh.kids[d], j, es[x].parent);
    }
    LinkedFrame(es, sh, Removed(es, d, sh.kids[d], j), RemovedShape(sh, d, sh.kids[d], j), x);
  }

  lemma ParentIn(es: Elements, sh: Shape, x: Ptr)
    requires Valid(es, sh) && x in es
    ensures NULL !in es && LinkedAt(es, sh, x) && x in sh.paths
    ensures es[x].parent != NULL ==> es[x].parent in es && es[x].parent in sh.paths
  {
  }

  lemma RemovedKeeps(es: Elements, d: Ptr, s: seq<Ptr>, j: nat, x: Ptr)
    requires j < |s| && IsDir(es, d) && s[j] in es && (j > 0 ==> s[j - 1] in es) && x in es && x != s[j]
    ensures var fs := Removed(es, d, s, j);
            x in fs && fs[x].name == es[x].name && fs[x].parent == es[x].parent && fs[x].body.Dir? == es[x].body.Dir?
            && fs[x].refs == es[x].refs && (es[x].body.File? ==> fs[x].body == es[x].body)
  {
  }

  lemma LinkedFrame(es: Elements, sh: Shape, fs: Elements, rh: Shape, x: Ptr)
    requires x in es && LinkedAt(es, sh, x) && x in fs && x in rh.paths && rh.paths[x] == sh.paths[x]
    requires fs[x].name == es[x].name && fs[x].parent == es[x].parent && fs[x].body.Dir? == es[x].body.Dir?
    requires var d := es[x].parent;
             d != NULL ==> d in es && d in fs && d in sh.paths && d in rh.paths && rh.paths[d] == sh.paths[d]
                           && fs[d].body.Dir? == es[d].body.Dir?
    requires NULL !in es
    ensures LinkedAt(fs, rh, x)
  {
    hide Parent, GoodName;
  }

  lemma WithoutElements(s: seq<Ptr>, j: nat)
    requires j < |s| && NoDuplicates(s)
    ensures NoDuplicates(Without(s, j))
    ensures forall x: Ptr :: x in Without(s, j) <==> x in s && x != s[j]
  {
    var t := Without(s, j);
    forall x | x in t
      ensures x in s && x != s[j]
    {
      var k :| 0 <= k < |t| && t[k] == x;
      assert t[k] == s[if k < j then k else k + 1];
    }
    forall x | x in s && x != s[j]
      ensures x in t
    {
      var k :| 0 <= k < |s| && s[k] == x;
      assert t[if k < j then k else k - 1] == x;
    }
  }

  lemma RemovedLinks(es: Elements, d: Ptr, s: seq<Ptr>, j: nat)
    requires j < |s| && IsDir(es, d) && NoDuplicates(s) && d !in s && forall e | e in s :: e in es
    ensures s[j] in s && (j > 0 ==> s[j - 1] in s)
    ensures var fs := Removed(es, d, s, j);
            && (forall e | e in s && e != s[j] :: e in fs)
            && (forall e | e in s && e != s[j] && (j > 0 ==> e != s[j - 1]) :: fs[e].sabling == es[e].sabling)
            && (j > 0 ==> fs[s[j - 1]].sabling == es[s[j]].sabling)
            && IsDir(fs, d) && fs[d].body.child == if j == 0 then es[s[j]].sabling else es[d].body.child
  {
    assert s[j] in s && (j > 0 ==> s[j - 1] in s);
  }

  lemma RemovedChain(es: Elements, d: Ptr, s: seq<Ptr>, j: nat)
    requires j < |s| && IsDir(es, d) && NoDuplicates(s) && d !in s && (forall e | e in s :: e in es)
    requires Chain(es, es[d].body.child, s)
    ensures j > 0 ==> s[j - 1] in es
    ensures s[j] in es && IsDir(Removed(es, d, s, j), d)
    ensures Chain(Removed(es, d, s, j), Removed(es, d, s, j)[d].body.child, Without(s, j))
  {
    RemovedLinks(es, d, s, j);
    hide NoDuplicates, Removed;
    var fs := Removed(es, d, s, j);
    if j == 0 {
      ChainIn(es, es[d].body.child, s, 1);
      assert Without(s, 0) == s[1..];
      TailOthers(s);
      ChainFrame(es, fs, es[s[0]].sabling, s[1..]);
    } else {
      hide Chain;
      ChainBypass(es, fs, es[d].body.child, s, j);
    }
  }

  lemma TailOthers(s: seq<Ptr>)
    requires s != [] && NoDuplicates(s)
    ensures forall e | e in s[1..] :: e in s && e != s[0]
  {
  }

  lemma RemoveKeepsChains(es: Elements, sh: Shape, d: Ptr, j: nat, x: Ptr)
    requires Valid(es, sh) && Removable(es, sh, d, j)
    requires IsDir(Removed(es, d, sh.kids[d], j), x)
    ensures ChainedAt(Removed(es, d, sh.kids[d], j), RemovedShape(sh, d, sh.kids[d], j), x)
  {
    hide LinkedAt, Bijective, Chain, NoDuplicates;
    assert ChainedAt(es, sh, d) && ChainedAt(es, sh, x);
    var s := sh.kids[d];
    NotOwnParent(es, sh, d);
    RemovedLinks(es, d, s, j);
    WithoutElements(s, j);
    var fs := Removed(es, d, s, j);
    if x == d {
      RemovedChain(es, d, s, j);
    } else {
      assert forall e | e in sh.kids[x] :: e !in s;
      ChainFrame(es, fs, es[x].body.child, sh.kids[x]);
    }
  }

  lemma NotOwnParent(es: Elements, sh: Shape, e: Ptr)
    requires Valid(es, sh) && e in es
    ensures es[e].parent != e
  {
    assert LinkedAt(es, sh, e);
    if sh.paths[e].1 != [] {
      assert |Parent(sh.paths[e]).1| < |sh.paths[e].1|;
    }
  }

  /** Removing an element without entries keeps the tree a tree. */
  lemma RemoveKeepsValid(es: Elements, sh: Shape, d: Ptr, j: nat)
    requires Valid(es, sh) && Removable(es, sh, d, j)
    ensures Valid(Removed(es, d, sh.kids[d], j), RemovedShape(sh, d, sh.kids[d], j))
  {
    hide Bijective, LinkedAt, ChainedAt, Removed;
    var fs, rh := Removed(es, d, sh.kids[d], j), RemovedShape(sh, d, sh.kids[d], j);
    RemoveKeepsNames(es, sh, d, j);
    forall x | x in fs
      ensures x in rh.paths && LinkedAt(fs, rh, x)
    {
      RemoveKeepsLinks(es, sh, d, j, x);
    }
    forall x | x in fs && fs[x].body.Dir?
      ensures ChainedAt(fs, rh, x)
    {
      RemoveKeepsChains(es, sh, d, j, x);
    }
  }

  // ---- renaming ----

  /** k lies at or below the entry n of the directory named up. */
  predicate Under(k: Key, up: Key, n: Path) {
    k.0 == up.0 && |k.1| > |up.1| && k.1[..|up.1|] == up.1 && k.1[|up.1|] == n
  }

  function Moved(k: Key, up: Key, n: Path, m: Path): Key {
    if Under(k, up, n) then (k.0, k.1[|up.1| := m]) else k
  }

  lemma MovedBack(k: Key, up: Key, n: Path, m: Path)
    requires !Under(k, up, m)
    ensures Moved(Moved(k, up, n, m), up, m, n) == k
    ensures |Moved(k, up, n, m).1| == |k.1|
  {
    if Under(k, up, n) {
      var c := k.1[|up.1| := m];
      assert c[..|up.1|] == k.1[..|up.1|];
      assert c[|up.1| := n] == k.1;
    }
  }

  function Renamed(es: Elements, e: Ptr, m: Path): Elements
    requires e in es
  {
    es[e := es[e].(name := m)]
  }

  ghost predicate Vacant(sh: Shape, up: Key, m: Path) {
    forall k | k in sh.names :: !Under(k, up, m)
  }

  lemma MovedApart(sh: Shape, up: Key, n: Path, m: Path)
    requires Vacant(sh, up, m)
    ensures forall j, k | j in sh.names && k in sh.names && Moved(j, up, n, m) == Moved(k, up, n, m) :: j == k
  {
    forall j, k | j in sh.names && k in sh.names && Moved(j, up, n, m) == Moved(k, up, n, m)
      ensures j == k
    {
      MovedBack(j, up, n, m);
      MovedBack(k, up, n, m);
    }
  }

  ghost function RenamedShape(sh: Shape, up: Key, n: Path, m: Path): (rh: Shape)
    requires Vacant(sh, up, m)
  {
    MovedApart(sh, up, n, m);
    Shape(sh.kids,
          map k | k in sh.names :: Moved(k, up, n, m) := sh.names[k],
          map e | e in sh.paths :: Moved(sh.paths[e], up, n, m))
  }

  lemma RenameKeepsNames(es: Elements, sh: Shape, up: Key, e: Ptr, n: Path, m: Path)
    requires Valid(es, sh) && Vacant(sh, up, m) && e in es
    ensures Bijective(Renamed(es, e, m), RenamedShape(sh, up, n, m))
  {
    hide LinkedAt, ChainedAt, Moved, Vacant;
    var fs, rh := Renamed(es, e, m), RenamedShape(sh, up, n, m);
    MovedApart(sh, up, n, m);
    forall x | x in fs
      ensures rh.paths[x] in rh.names && rh.names[rh.paths[x]] == x
    {
      assert sh.paths[x] in sh.names;
    }
  }

  lemma RenameKeepsLinks(es: Elements, sh: Shape, up: Key, e: Ptr, n: Path, m: Path, x: Ptr)
    requires Valid(es, sh) && Vacant(sh, up, m) && e in es && es[e].parent != NULL
    requires sh.paths[e] == (up.0, up.1 + [n]) && GoodName(m) && x in es
    ensures x in RenamedShape(sh, up, n, m).paths
    ensures LinkedAt(Renamed(es, e, m), RenamedShape(sh, up, n, m), x)
  {
    hide ChainedAt, Moved, Vacant, Parent, GoodName;
    assert LinkedAt(es, sh, x);
    var k := sh.paths[x];
    var fs, rh := Renamed(es, e, m), RenamedShape(sh, up, n, m);
    assert rh.paths[x] == Moved(k, up, n, m);
    assert fs[x].parent == es[x].parent && fs[x].body == es[x].body;
    MovedLength(k, up, n, m);
    if k.1 != [] {
      var d := es[x].parent;
      assert d in es && rh.paths[d] == Moved(sh.paths[d], up, n, m) && fs[d].body == es[d].body;
      MovedParent(k, up, n, m);
      assert rh.paths[d] == Parent(rh.paths[x]);
      MovedLast(k, up, n, m);
      if x != e {
        assert k != sh.paths[e] by { assert sh.names[k] == x; }
        assert fs[x].name == es[x].name;
      } else {
        assert fs[x].name == m;
      }
    }
  }

  lemma MovedLength(k: Key, up: Key, n: Path, m: Path)
    ensures |Moved(k, up, n, m).1| == |k.1| && Moved(k, up, n, m).0 == k.0
  {
  }

  lemma MovedParent(k: Key, up: Key, n: Path, m: Path)
    requires k.1 != []
    ensures Moved(k, up, n, m).1 != [] && Parent(Moved(k, up, n, m)) == Moved(Parent(k), up, n, m)
  {
    var p := Parent(k);
    if Under(k, up, n) {
      if |k.1| == |up.1| + 1 {
        assert k.1[|up.1| := m][..|up.1|] == k.1[..|up.1|];
      } else {
        assert p.1[..|up.1|] == k.1[..|up.1|] && p.1[|up.1|] == n;
        assert k.1[|up.1| := m][..|k.1| - 1] == p.1[|up.1| := m];
      }
    } else {
      assert |p.1| > |up.1| ==> p.1[..|up.1|] == k.1[..|up.1|];
    }
  }

  lemma MovedLast(k: Key, up: Key, n: Path, m: Path)
    requires k.1 != []
    ensures |Moved(k, up, n, m).1| == |k.1|
    ensures Moved(k, up, n, m).1[|k.1| - 1] == if k == (up.0, up.1 + [n]) then m else k.1[|k.1| - 1]
  {
    if Under(k, up, n) && |k.1| == |up.1| + 1 {
      PrefixUnder(k, up, n);
      assert k.1[..|k.1|] == k.1;
    }
    if k == (up.0, up.1 + [n]) {
      assert k.1[..|up.1|] == up.1;
    }
  }

  lemma RenameKeepsChains(es: Elements, sh: Shape, up: Key, e: Ptr, n: Path, m: Path, x: Ptr)
    requires Valid(es, sh) && Vacant(sh, up, m) && e in es && IsDir(es, x)
    ensures ChainedAt(Renamed(es, e, m), RenamedShape(sh, up, n, m), x)
  {
    hide LinkedAt, Bijective, Chain, Moved, Vacant;
    assert ChainedAt(es, sh, x);
    ChainFrame(es, Renamed(es, e, m), es[x].body.child, sh.kids[x]);
  }

  /** Renaming an entry to an unused name keeps the tree a tree, and takes everything below
      the entry along. */
  lemma RenameKeepsValid(es: Elements, sh: Shape, up: Key, e: Ptr, n: Path, m: Path)
    requires Valid(es, sh) && Vacant(sh, up, m) && e in es && es[e].parent != NULL
    requires sh.paths[e] == (up.0, up.1 + [n]) && GoodName(m)
    ensures Valid(Renamed(es, e, m), RenamedShape(sh, up, n, m))
  {
    hide Bijective, LinkedAt, ChainedAt, Moved, Vacant;
    var fs, rh := Renamed(es, e, m), RenamedShape(sh, up, n, m);
    RenameKeepsNames(es, sh, up, e, n, m);
    forall x | x in fs
      ensures x in rh.paths && LinkedAt(fs, rh, x)
    {
      RenameKeepsLinks(es, sh, up, e, n, m, x);
    }
    forall x | x in fs && fs[x].body.Dir?
      ensures ChainedAt(fs, rh, x)
    {
      RenameKeepsChains(es, sh, up, e, n, m, x);
    }
  }

  lemma PrefixUnder(k: Key, up: Key, m: Path)
    requires Under(k, up, m)
    ensures k.1[..|up.1| + 1] == up.1 + [m]
  {
  }

  /** A name that is not in use has nothing below it. */
  lemma UnusedIsVacant(es: Elements, sh: Shape, up: Key, m: Path)
    requires Valid(es, sh) && (up.0, up.1 + [m]) !in sh.names
    ensures Vacant(sh, up, m)
  {
    hide Valid;
    forall k | k in sh.names
      ensures !Under(k, up, m)
    {
      if Under(k, up, m) {
        PrefixNamed(es, sh, k.0, k.1, |up.1| + 1);
        PrefixUnder(k, up, m);
        assert false;
      }
    }
  }

  /** Looking names up after a rename: what was below the old name is below the new one, and
      nothing else has changed. */
  lemma RenamedLookup(sh: Shape, up: Key, n: Path, m: Path, k: Key)
    requires Vacant(sh, up, m) && n != m
    ensures var rh := RenamedShape(sh, up, n, m);
            if Under(k, up, n) then k !in rh.names
            else if Under(k, up, m) then
              var before := (k.0, k.1[|up.1| := n]);
              (k in rh.names <==> before in sh.names) && (k in rh.names ==> rh.names[k] == sh.names[before])
            else (k in rh.names <==> k in sh.names) && (k in rh.names ==> rh.names[k] == sh.names[k])
  {
    MovedApart(sh, up, n, m);
    var rh := RenamedShape(sh, up, n, m);
    if k in rh.names {
      var j :| j in sh.names && Moved(j, up, n, m) == k && rh.names[k] == sh.names[j];
      MovedBack(j, up, n, m);
      MovedUnder(j, up, n, m);
    }
    var before := Moved(k, up, m, n);
    MovedUnder(k, up, m, n);
    if before in sh.names {
      MovedBack(before, up, n, m);
      MovedForth(k, up, n, m);
    }
  }

  lemma MovedUnder(k: Key, up: Key, n: Path, m: Path)
    requires n != m
    ensures !Under(Moved(k, up, n, m), up, n)
    ensures Under(k, up, n) ==> Under(Moved(k, up, n, m), up, m)
  {
    if Under(k, up, n) {
      assert k.1[|up.1| := m][..|up.1|] == k.1[..|up.1|];
    }
  }

  lemma MovedForth(k: Key, up: Key, n: Path, m: Path)
    requires n != m
    ensures Under(k, up, m) ==> Moved(Moved(k, up, m, n), up, n, m) == k
  {
    if Under(k, up, m) {
      assert k.1[|up.1| := n][..|up.1|] == k.1[..|up.1|];
      assert k.1[|up.1| := n][|up.1| := m] == k.1;
    }
  }
}
