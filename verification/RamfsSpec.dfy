/** What the operations of the RAM file system do, in terms of the names in the tree. */
module RamfsSpec {
  import opened VfsPaths
  import opened RamfsTree
  import opened RamfsEdit

  datatype Errno = EISDIR | ENOTDIR | ENAMETOOLONG | ENOENT | EEXIST | ENOMEM | EBUSY | Unset

  predicate EndsInSlash(path: Path) {
    path != "" && path[|path| - 1] == '/'
  }

  /** Of the components of path the first k are named, by walk, and rest is the path from
      the next one on. */
  ghost predicate FoundAt(es: Elements, sh: Shape, root: Ptr, path: Path, k: nat, walk: Ptr, rest: Path) {
    var cs := Components(path);
    && k <= |cs| && (root, cs[..k]) in sh.names && sh.names[(root, cs[..k])] == walk
    && Components(rest) == cs[k..] && (rest == "" || rest[0] != '/') && (rest == "" <==> k == |cs|)
    && |rest| <= |path| && rest == path[|path| - |rest|..]
    && (rest != "" ==> IsDir(es, walk) && (root, cs[..k + 1]) !in sh.names && |cs[k]| < MAX_NAME)
    && (rest == "" ==> IsDir(es, walk) || !EndsInSlash(path))
  }

  /** The walk stops at the k-th component: at a file that should be a directory, or before
      a name that is too long. */
  ghost predicate StuckAt(es: Elements, sh: Shape, root: Ptr, path: Path, k: nat, errno: Errno) {
    var cs := Components(path);
    && k <= |cs| && (root, cs[..k]) in sh.names
    && var walk := sh.names[(root, cs[..k])];
    || (errno == ENOTDIR && !IsDir(es, walk) && (k < |cs| || EndsInSlash(path)))
    || (errno == ENAMETOOLONG && IsDir(es, walk) && k < |cs| && |cs[k]| >= MAX_NAME)
  }

  datatype Found = Found(walk: Ptr, rest: Path) | Stuck(errno: Errno)

  ghost predicate Answers(es: Elements, sh: Shape, root: Ptr, path: Path, r: Found) {
    match r
    case Found(walk, rest) => exists k: nat :: FoundAt(es, sh, root, path, k, walk, rest)
    case Stuck(errno) => exists k: nat :: StuckAt(es, sh, root, path, k, errno)
  }

  ghost predicate IsRoot(sh: Shape, root: Ptr) {
    (root, []) in sh.names && sh.names[(root, [])] == root
  }

  // ---- how the walk goes on ----

  /** The walk has gone through the components done and stands at position i. */
  ghost predicate Walking(es: Elements, sh: Shape, root: Ptr, path: Path, done: seq<Path>, i: nat, walk: Ptr) {
    && i <= |path| && Components(path) == done + Components(path[i..])
    && (root, done) in sh.names && sh.names[(root, done)] == walk
  }

  lemma RootIsDir(es: Elements, sh: Shape, root: Ptr)
    requires Valid(es, sh) && IsRoot(sh, root)
    ensures IsDir(es, root) && es[root].parent == NULL && root != NULL
  {
    hide ChainedAt;
    assert LinkedAt(es, sh, root);
  }

  lemma WalkStarts(es: Elements, sh: Shape, root: Ptr, path: Path)
    requires Valid(es, sh) && IsRoot(sh, root)
    ensures Walking(es, sh, root, path, [], 0, root) && IsDir(es, root)
  {
    hide Components, LinkedAt, ChainedAt;
    assert path[0..] == path;
    assert sh.names[sh.paths[root]] == root;
    RootIsDir(es, sh, root);
  }

  lemma {:induction false} OnlySlashes(s: Path)
    requires s != "" && Components(s) == []
    ensures EndsInSlash(s)
  {
    if s[0] == '/' && s != "/" {
      OnlySlashes(s[1..]);
    }
  }

  lemma WalkHitsFile(es: Elements, sh: Shape, root: Ptr, path: Path, done: seq<Path>, i: nat, walk: Ptr)
    requires Walking(es, sh, root, path, done, i, walk) && !IsDir(es, walk) && i < |path|
    ensures StuckAt(es, sh, root, path, |done|, ENOTDIR)
  {
    hide Components;
    assert (done + Components(path[i..]))[..|done|] == done;
    if Components(path[i..]) == [] {
      OnlySlashes(path[i..]);
      assert path[i..][|path[i..]| - 1] == path[|path| - 1];
    }
  }

  lemma WalkSkips(es: Elements, sh: Shape, root: Ptr, path: Path, done: seq<Path>, i: nat, j: nat, walk: Ptr)
    requires Walking(es, sh, root, path, done, i, walk) && Skips(path, i, j)
    ensures Walking(es, sh, root, path, done, j, walk) && (j < |path| ==> path[j] != '/')
  {
    hide Components;
    SkippingKeepsComponents(path[i..]);
    assert j < |path| ==> path[j..][0] == path[j];
  }

  /** The name at position i is the next component. */
  lemma NextComponent(path: Path, done: seq<Path>, i: nat, t: nat)
    requires i < |path| && path[i] != '/' && Ends(path, i, t) && Components(path) == done + Components(path[i..])
    ensures i < t && IsName(path[i..t])
    ensures |done| < |Components(path)| && Components(path)[..|done|] == done && Components(path)[|done|] == path[i..t]
    ensures Components(path)[..|done| + 1] == done + [path[i..t]]
    ensures Components(path) == done + [path[i..t]] + Components(path[t..])
  {
    var s := path[i..];
    FirstComponent(s);
    NoSlash(s, t - i);
    hide Components, ComponentLen, SkipSlashes;
    assert s[..t - i] == path[i..t] && s[t - i..] == path[t..];
    Placed(done, path[i..t], Components(path[t..]));
  }

  lemma Placed(done: seq<Path>, x: Path, more: seq<Path>)
    ensures var cs := done + ([x] + more);
            cs == done + [x] + more && |done| < |cs| && cs[..|done|] == done && cs[|done|] == x
            && cs[..|done| + 1] == done + [x]
  {
  }

  lemma WalkTooLong(es: Elements, sh: Shape, root: Ptr, path: Path, done: seq<Path>, i: nat, t: nat, walk: Ptr)
    requires Walking(es, sh, root, path, done, i, walk) && IsDir(es, walk)
    requires i < |path| && path[i] != '/' && Ends(path, i, t) && t - i >= MAX_NAME
    ensures StuckAt(es, sh, root, path, |done|, ENAMETOOLONG)
  {
    hide Components;
    NextComponent(path, done, i, t);
  }

  lemma WalkEnds(es: Elements, sh: Shape, root: Ptr, path: Path, done: seq<Path>, walk: Ptr)
    requires Walking(es, sh, root, path, done, |path|, walk) && (IsDir(es, walk) || !EndsInSlash(path))
    ensures FoundAt(es, sh, root, path, |done|, walk, "")
  {
    assert path[|path|..] == "";
    assert Components(path) == done;
    assert done[..|done|] == done;
  }

  lemma WalkMisses(es: Elements, sh: Shape, root: Ptr, path: Path, done: seq<Path>, i: nat, t: nat, walk: Ptr)
    requires Walking(es, sh, root, path, done, i, walk) && IsDir(es, walk)
    requires i < |path| && path[i] != '/' && Ends(path, i, t) && t - i < MAX_NAME
    requires (root, done + [path[i..t]]) !in sh.names
    ensures FoundAt(es, sh, root, path, |done|, walk, path[i..])
  {
    hide Components;
    NextComponent(path, done, i, t);
    assert (done + Components(path[i..]))[|done|..] == Components(path[i..]);
  }

  lemma WalkGoesOn(es: Elements, sh: Shape, root: Ptr, path: Path, done: seq<Path>, i: nat, t: nat, walk: Ptr, e: Ptr)
    requires Walking(es, sh, root, path, done, i, walk)
    requires i < |path| && path[i] != '/' && Ends(path, i, t)
    requires (root, done + [path[i..t]]) in sh.names && sh.names[(root, done + [path[i..t]])] == e
    ensures Walking(es, sh, root, path, done + [path[i..t]], t, e)
    ensures i < t <= |path| && (t < |path| ==> path[t] == '/') && (t == |path| ==> !EndsInSlash(path))
  {
    hide Components;
    NextComponent(path, done, i, t);
    assert path[i..][t - i - 1] == path[t - 1];
    assert t < |path| ==> path[i..][t - i] == path[t];
  }

  ghost predicate ChainFrom(es: Elements, t: Ptr, s: seq<Ptr>, j: nat) {
    j <= |s| && Chain(es, t, s[j..]) && (t != NULL ==> j < |s| && s[j] == t && t in es)
  }

  lemma ChainNext(es: Elements, t: Ptr, s: seq<Ptr>, j: nat)
    requires ChainFrom(es, t, s, j) && t != NULL
    ensures ChainFrom(es, es[t].sabling, s, j + 1)
  {
    assert s[j..][1..] == s[j + 1..];
    assert s[j..][0] == s[j];
    assert j + 1 < |s| ==> s[j + 1..][0] == s[j + 1];
  }

  lemma KidsOf(es: Elements, sh: Shape, d: Ptr) returns (s: seq<Ptr>)
    requires Valid(es, sh) && IsDir(es, d)
    ensures d in sh.kids && s == sh.kids[d] && ChainFrom(es, es[d].body.child, s, 0)
  {
    assert ChainedAt(es, sh, d);
    s := sh.kids[d];
    assert s[0..] == s;
  }

  lemma Searched(es: Elements, sh: Shape, d: Ptr, name: Path, t: Ptr, j: nat)
    requires Valid(es, sh) && IsDir(es, d) && d in sh.paths && d in sh.kids && ChainFrom(es, t, sh.kids[d], j)
    requires forall k | 0 <= k < j :: sh.kids[d][k] in es && es[sh.kids[d][k]].name != name
    requires t != NULL ==> es[t].name == name
    ensures var key := (sh.paths[d].0, sh.paths[d].1 + [name]);
            if key in sh.names then t == sh.names[key] && t != NULL else t == NULL
  {
    hide Valid;
    var key := (sh.paths[d].0, sh.paths[d].1 + [name]);
    if t != NULL {
      assert t in sh.kids[d];
      EntryNamed(es, sh, d, t);
    } else if key in sh.names {
      NamedEntry(es, sh, d, name);
      assert false;
    }
  }

  /** Which of an element's fields no edit of the tree around it touches. */
  predicate Alike(a: Element, b: Element) {
    && a.name == b.name && a.parent == b.parent && a.refs == b.refs
    && (if a.body.File? then b.body == a.body else b.body.Dir?)
  }

  ghost predicate OthersAlike(es: Elements, fs: Elements, but: set<Ptr>) {
    forall x | x in es && x !in but :: x in fs && Alike(es[x], fs[x])
  }

  // ---- what a path names ----

  ghost predicate NamesElement(es: Elements, sh: Shape, root: Ptr, path: Path) {
    var key := (root, Components(path));
    key in sh.names && (IsDir(es, sh.names[key]) || !EndsInSlash(path))
  }

  /** Only the last component of the path is missing, and it would do as a name: names have at
      most 15 characters. */
  ghost predicate NamesVacancy(es: Elements, sh: Shape, root: Ptr, path: Path) {
    var key := (root, Components(path));
    && key.1 != [] && key !in sh.names && Parent(key) in sh.names && IsDir(es, sh.names[Parent(key)])
    && |key.1[|key.1| - 1]| <= 15
  }

  /** The missing component is name, in the directory walk. */
  ghost predicate VacancyAt(sh: Shape, root: Ptr, path: Path, walk: Ptr, name: Path) {
    var cs := Components(path);
    cs != [] && (root, cs[..|cs| - 1]) in sh.names && walk == sh.names[(root, cs[..|cs| - 1])] && name == cs[|cs| - 1]
  }

  /** Finding agrees with looking the components up: a path is found in full, as the element
      it names, exactly when its components are named, except that a path that ends in a
      slash does not find a file. */
  lemma FindAgrees(es: Elements, sh: Shape, root: Ptr, path: Path, r: Found)
    requires Valid(es, sh) && IsRoot(sh, root) && Answers(es, sh, root, path, r)
    ensures r.Found? && r.rest == "" <==> NamesElement(es, sh, root, path)
    ensures r.Found? && r.rest == "" ==> r.walk == sh.names[(root, Components(path))]
  {
    hide Valid, Components;
    var cs := Components(path);
    assert cs[..|cs|] == cs;
    var k: nat :| if r.Found? then FoundAt(es, sh, root, path, k, r.walk, r.rest)
                  else StuckAt(es, sh, root, path, k, r.errno);
    if (root, cs) in sh.names && k < |cs| {
      PrefixNamed(es, sh, root, cs, k);
      PrefixNamed(es, sh, root, cs, k + 1);
    }
  }

  /** And exactly one component is left over when the rest of the path is named. */
  lemma MissAgrees(es: Elements, sh: Shape, root: Ptr, path: Path, r: Found)
    requires Valid(es, sh) && IsRoot(sh, root) && Answers(es, sh, root, path, r)
    ensures r.Found? && |Components(r.rest)| == 1 <==> NamesVacancy(es, sh, root, path)
    ensures r.Found? && |Components(r.rest)| == 1 ==> VacancyAt(sh, root, path, r.walk, Components(r.rest)[0])
  {
    hide Valid, Components;
    var cs := Components(path);
    assert cs[..|cs|] == cs;
    var k: nat :| if r.Found? then FoundAt(es, sh, root, path, k, r.walk, r.rest)
                  else StuckAt(es, sh, root, path, k, r.errno);
    if r.Found? {
      EmptyRest(r.rest);
    }
    if cs != [] && k < |cs| - 1 {
      var up := cs[..|cs| - 1];
      assert up[..k] == cs[..k] && up[..k + 1] == cs[..k + 1];
      if (root, up) in sh.names {
        PrefixNamed(es, sh, root, up, k);
        PrefixNamed(es, sh, root, up, k + 1);
      }
    }
  }

  lemma EmptyRest(s: Path)
    ensures s == "" ==> Components(s) == []
  {
  }

  /** The rest of a path without a slash is its one component. */
  lemma PlainRest(path: Path, rest: Path)
    requires rest != "" && rest[0] != '/' && |rest| <= |path| && rest == path[|path| - |rest|..]
    ensures '/' !in rest <==> |Components(rest)| == 1 && !EndsInSlash(path)
    ensures '/' !in rest ==> Components(rest) == [rest]
  {
    FirstComponent(rest);
    var n := ComponentLen(rest);
    assert rest[|rest| - 1] == path[|path| - 1];
    assert n < |rest| ==> rest[n] in rest;
    if n < |rest| && Components(rest[n..]) == [] {
      OnlySlashes(rest[n..]);
      assert rest[n..][|rest[n..]| - 1] == rest[|rest| - 1];
    }
    if n == |rest| {
      assert rest[..n] == rest && rest[n..] == "";
      NoSlash(rest, n);
    }
  }

  lemma NoEmptyName(es: Elements, sh: Shape, root: Ptr, done: seq<Path>, name: Path)
    requires Valid(es, sh) && (root, done + [name]) in sh.names
    ensures name != ""
  {
    hide Valid;
    UpNamed(es, sh, (root, done + [name]));
  }

  lemma WalkIn(es: Elements, sh: Shape, root: Ptr, path: Path, done: seq<Path>, i: nat, walk: Ptr)
    requires Valid(es, sh) && Walking(es, sh, root, path, done, i, walk)
    ensures walk in es && walk in sh.paths && sh.paths[walk] == (root, done)
  {
    hide LinkedAt, ChainedAt, Components;
  }

  datatype Access = ReadOnly | WriteOnly | ReadWrite

  /** The bits of the open flags that matter here. */
  datatype Flags = Flags(access: Access, creat: bool, excl: bool, append: bool)

  datatype Opened = Opened(data: Ptr, offset: nat) | OpenFails(errno: Errno)

  /** open finds a file and may open it. */
  ghost predicate OpensOld(es: Elements, sh: Shape, root: Ptr, path: Path, flags: Flags) {
    && NamesElement(es, sh, root, path) && !IsDir(es, sh.names[(root, Components(path))])
    && !(flags.creat && flags.excl)
  }

  /** open makes a new file. */
  ghost predicate OpensNew(es: Elements, sh: Shape, root: Ptr, path: Path, flags: Flags, heap: bool) {
    flags.creat && NamesVacancy(es, sh, root, path) && !EndsInSlash(path) && heap
  }

  /** The element e came to be named cs, first in its directory; all other elements and all
      other names are as they were. */
  ghost predicate Created(es: Elements, sh: Shape, fs: Elements, rh: Shape, root: Ptr, cs: seq<Path>, e: Ptr,
                          refs: nat, body: Body) {
    && cs != [] && rh.names == sh.names[(root, cs) := e]
    && (root, cs[..|cs| - 1]) in sh.names
    && var d := sh.names[(root, cs[..|cs| - 1])];
    && fs.Keys == es.Keys + {e} && OthersAlike(es, fs, {}) && e !in es
    && fs[e].name == cs[|cs| - 1] && fs[e].parent == d && fs[e].refs == refs && fs[e].body == body
    && d in sh.kids && rh.kids == sh.kids[e := []][d := [e] + sh.kids[d]]
  }

  /** What open does, from elements es with shape sh to fs with shape rh. */
  ghost predicate OpenDone(es: Elements, sh: Shape, fs: Elements, rh: Shape, root: Ptr, path: Path, flags: Flags,
                           heap: bool, r: Opened) {
    && (r.Opened? <==> OpensOld(es, sh, root, path, flags) || OpensNew(es, sh, root, path, flags, heap))
    && (r.OpenFails? ==> fs == es && rh == sh)
    && (r.OpenFails? && NamesElement(es, sh, root, path) ==>
          r.errno == if IsDir(es, sh.names[(root, Components(path))]) then EISDIR else EEXIST)
    && (r.OpenFails? && flags.creat && NamesVacancy(es, sh, root, path) && !EndsInSlash(path) ==> r.errno == ENOMEM)
    && (OpensOld(es, sh, root, path, flags) ==>
          && r.data == sh.names[(root, Components(path))] && rh == sh && r.data in es && es[r.data].body.File?
          && fs == es[r.data := es[r.data].(refs := es[r.data].refs + 1)]
          && r.offset == if flags.append then |es[r.data].body.content| else 0)
    && (OpensNew(es, sh, root, path, flags, heap) ==>
          && r.offset == 0 && r.data != NULL
          && Created(es, sh, fs, rh, root, Components(path), r.data, 1, File([])))
  }

  lemma {:induction false} FreshExists(s: set<Ptr>)
    ensures exists p: Ptr :: p != NULL && p !in s
  {
    var p := Above(s);
    assert p + 1 != NULL && p + 1 !in s;
  }

  lemma {:induction false} Above(s: set<Ptr>) returns (p: Ptr)
    ensures forall x | x in s :: x <= p
    decreases |s|
  {
    if s == {} {
      p := 0;
    } else {
      var x :| x in s;
      var q := Above(s - {x});
      assert forall y | y in s :: y == x || y in s - {x};
      p := if x > q then x else q;
    }
  }

  lemma NoVacancy(es: Elements, sh: Shape, root: Ptr, path: Path)
    requires Valid(es, sh) && IsRoot(sh, root) && path == ""
    ensures !NamesVacancy(es, sh, root, path)
    ensures NamesElement(es, sh, root, path) ==> IsDir(es, sh.names[(root, Components(path))])
  {
    assert Components(path) == [];
    WalkStarts(es, sh, root, path);
  }

  lemma FoundIn(es: Elements, sh: Shape, root: Ptr, path: Path, walk: Ptr, rest: Path)
    requires Valid(es, sh) && Answers(es, sh, root, path, Found(walk, rest))
    ensures walk in es && walk in sh.paths && walk != NULL
    ensures |rest| <= |path| && rest == path[|path| - |rest|..]
    ensures rest != "" ==> IsDir(es, walk) && rest[0] != '/'
  {
    hide LinkedAt, ChainedAt, Components;
  }

  /** The same elements with the same names and links. */
  ghost predicate SameLinks(es: Elements, fs: Elements) {
    && fs.Keys == es.Keys
    && (forall x | x in es ::
          fs[x].name == es[x].name && fs[x].parent == es[x].parent && fs[x].sabling == es[x].sabling)
    && (forall x | x in es :: if es[x].body.Dir? then fs[x].body == es[x].body else fs[x].body.File?)
  }

  lemma SameLinksChain(es: Elements, sh: Shape, fs: Elements, d: Ptr)
    requires SameLinks(es, fs) && IsDir(es, d) && ChainedAt(es, sh, d)
    ensures IsDir(fs, d) && ChainedAt(fs, sh, d)
  {
    ChainFrame(es, fs, es[d].body.child, sh.kids[d]);
  }

  /** Changing what is in elements, not how they are linked, keeps the tree a tree. */
  lemma SameLinksValid(es: Elements, sh: Shape, fs: Elements)
    requires Valid(es, sh) && SameLinks(es, fs)
    ensures Valid(fs, sh)
  {
    hide ChainedAt;
    forall x | x in fs
      ensures LinkedAt(fs, sh, x)
    {
      assert LinkedAt(es, sh, x);
    }
    forall d | d in fs && fs[d].body.Dir?
      ensures ChainedAt(fs, sh, d)
    {
      SameLinksChain(es, sh, fs, d);
    }
  }

  /** Inserting what is left of the path, which is one name, below where the walk ended. */
  lemma CreateHere(es: Elements, sh: Shape, root: Ptr, path: Path, walk: Ptr, name: Path, e: Ptr, refs: nat, body: Body)
    requires Valid(es, sh) && NamesVacancy(es, sh, root, path) && e !in es && e != NULL
    requires body in {Dir(NULL), File([])}
    requires VacancyAt(sh, root, path, walk, name)
    ensures walk in sh.kids && walk in sh.paths
    ensures Valid(Inserted(es, walk, e, name, refs, body), InsertedShape(es, sh, walk, e, name))
    ensures Created(es, sh, Inserted(es, walk, e, name, refs, body), InsertedShape(es, sh, walk, e, name),
                    root, Components(path), e, refs, body)
  {
    var cs := Components(path);
    ComponentsAreNames(path);
    hide Components, LinkedAt, ChainedAt;
    assert sh.paths[walk] == (root, cs[..|cs| - 1]);
    assert cs == cs[..|cs| - 1] + [name];
    InsertKeepsValid(es, sh, walk, e, name, refs, body);
  }

  lemma VacancyShort(es: Elements, sh: Shape, root: Ptr, path: Path)
    requires NamesVacancy(es, sh, root, path)
    ensures var cs := Components(path); cs != [] && |cs[|cs| - 1]| < MAX_NAME
  {
  }

  lemma FullIsNotVacant(es: Elements, sh: Shape, root: Ptr, path: Path)
    ensures !(NamesElement(es, sh, root, path) && NamesVacancy(es, sh, root, path))
  {
  }

  // ---- the other operations ----

  /** unlink removes what the path names: an element nobody has open, with nothing in it. */
  ghost predicate Unlinks(es: Elements, sh: Shape, root: Ptr, path: Path) {
    && NamesElement(es, sh, root, path)
    && var e := sh.names[(root, Components(path))];
    IsLeaf(es, e) && es[e].refs == 0
  }

  /** What unlink does; the root of the tree is left where it is, although unlink succeeds. */
  ghost predicate UnlinkDone(es: Elements, sh: Shape, fs: Elements, rh: Shape, root: Ptr, path: Path, ok: bool) {
    && (ok <==> Unlinks(es, sh, root, path))
    && (!ok || Components(path) == [] ==> fs == es && rh == sh)
    && (ok && Components(path) != [] ==>
          var key := (root, Components(path));
          && var e := sh.names[key];
          rh.names == sh.names - {key} && fs.Keys == es.Keys - {e} && OthersAlike(es, fs, {e}))
  }

  ghost predicate Renames(es: Elements, sh: Shape, root: Ptr, path: Path, newPath: Path) {
    && NamesElement(es, sh, root, path) && Components(path) != []
    && NamesVacancy(es, sh, root, newPath) && !EndsInSlash(newPath)
    && Parent((root, Components(path))) == Parent((root, Components(newPath)))
  }

  /** What rename does: every name at or below the old one becomes the corresponding name at
      or below the new one. */
  ghost predicate RenameDone(es: Elements, sh: Shape, fs: Elements, rh: Shape, root: Ptr, path: Path, newPath: Path,
                             ok: bool) {
    && (ok <==> Renames(es, sh, root, path, newPath))
    && (!ok ==> fs == es && rh == sh)
    && (ok ==>
          var cs, ds := Components(path), Components(newPath);
          && var up, n, m := Parent((root, cs)), cs[|cs| - 1], ds[|ds| - 1];
          && sh.names[(root, cs)] in es && fs == Renamed(es, sh.names[(root, cs)], m)
          && Vacant(sh, up, m) && rh == RenamedShape(sh, up, n, m))
  }

  ghost predicate MkdirDone(es: Elements, sh: Shape, fs: Elements, rh: Shape, root: Ptr, path: Path,
                            heap: bool, ok: bool) {
    && (ok <==> NamesVacancy(es, sh, root, path) && heap)
    && (!ok ==> fs == es && rh == sh)
    && (ok ==> exists e :: e != NULL && Created(es, sh, fs, rh, root, Components(path), e, 0, Dir(NULL)))
  }

  lemma RenameHere(es: Elements, sh: Shape, root: Ptr, path: Path, newPath: Path, e: Ptr, walk: Ptr, name: Path)
    requires Valid(es, sh) && IsRoot(sh, root) && NamesElement(es, sh, root, path)
             && e == sh.names[(root, Components(path))]
    requires NamesVacancy(es, sh, root, newPath) && !EndsInSlash(newPath)
    requires VacancyAt(sh, root, newPath, walk, name)
    ensures e in es && (es[e].parent == walk <==> Renames(es, sh, root, path, newPath))
    ensures Renames(es, sh, root, path, newPath) ==>
              && Vacant(sh, Parent((root, Components(path))), name)
              && var cs := Components(path);
              Valid(Renamed(es, e, name), RenamedShape(sh, Parent((root, cs)), cs[|cs| - 1], name))
  {
    var cs, ds := Components(path), Components(newPath);
    ComponentsAreNames(newPath);
    hide Components, LinkedAt, ChainedAt;
    assert walk in es && walk != NULL && sh.paths[walk] == (root, ds[..|ds| - 1]);
    if cs == [] {
      assert sh.names[sh.paths[root]] == root;
      RootIsDir(es, sh, root);
    } else {
      UpNamed(es, sh, (root, cs));
      if Renames(es, sh, root, path, newPath) {
        var up := Parent((root, cs));
        assert ds == up.1 + [name];
        UnusedIsVacant(es, sh, up, name);
        assert cs == up.1 + [cs[|cs| - 1]];
        RenameKeepsValid(es, sh, up, e, cs[|cs| - 1], name);
      }
    }
  }

  /** Where an element stands in its directory. */
  lemma Placement(es: Elements, sh: Shape, e: Ptr) returns (j: nat)
    requires Valid(es, sh) && e in es && es[e].parent != NULL
    ensures var d := es[e].parent;
            && IsDir(es, d) && d in sh.kids && j < |sh.kids[d]| && sh.kids[d][j] == e
            && NoDuplicates(sh.kids[d]) && Chain(es, es[d].body.child, sh.kids[d])
            && (forall x | x in sh.kids[d] :: x in es)
  {
    hide Chain, NoDuplicates;
    assert LinkedAt(es, sh, e);
    var d := es[e].parent;
    assert ChainedAt(es, sh, d);
    j :| 0 <= j < |sh.kids[d]| && sh.kids[d][j] == e;
  }

  lemma RemoveHere(es: Elements, sh: Shape, e: Ptr, j: nat)
    requires Valid(es, sh) && IsLeaf(es, e) && es[e].parent != NULL
    requires var d := es[e].parent; IsDir(es, d) && d in sh.kids && j < |sh.kids[d]| && sh.kids[d][j] == e
    ensures var d := es[e].parent;
            && Removable(es, sh, d, j)
            && var fs, rh := Removed(es, d, sh.kids[d], j), RemovedShape(sh, d, sh.kids[d], j);
            && Valid(fs, rh) && fs.Keys == es.Keys - {e} && OthersAlike(es, fs, {e})
            && rh.names == sh.names - {sh.paths[e]}
  {
    var d := es[e].parent;
    RemovableHere(es, sh, e, j);
    hide Valid, Removed, OthersAlike, Removable;
    RemoveKeepsValid(es, sh, d, j);
    RemoveSparesOthers(es, sh, d, j);
  }

  lemma RemoveSparesOthers(es: Elements, sh: Shape, d: Ptr, j: nat)
    requires Removable(es, sh, d, j)
    ensures OthersAlike(es, Removed(es, d, sh.kids[d], j), {sh.kids[d][j]})
    ensures Removed(es, d, sh.kids[d], j).Keys == es.Keys - {sh.kids[d][j]}
    ensures sh.kids[d][j] in sh.paths
    ensures RemovedShape(sh, d, sh.kids[d], j).names == sh.names - {sh.paths[sh.kids[d][j]]}
  {
    var s := sh.kids[d];
    forall x | x in es && x !in {s[j]}
      ensures x in Removed(es, d, s, j) && Alike(es[x], Removed(es, d, s, j)[x])
    {
      RemovedKeeps(es, d, s, j, x);
    }
    RemovedKeys(es, d, s, j);
  }

  lemma RemovableHere(es: Elements, sh: Shape, e: Ptr, j: nat)
    requires Valid(es, sh) && IsLeaf(es, e) && es[e].parent != NULL
    requires var d := es[e].parent; IsDir(es, d) && d in sh.kids && j < |sh.kids[d]| && sh.kids[d][j] == e
    ensures Removable(es, sh, es[e].parent, j)
  {
    var d := es[e].parent;
    KidsIn(es, sh, d);
    hide Valid;
    assert j > 0 ==> sh.kids[d][j - 1] in sh.kids[d];
    ParentIn(es, sh, e);
  }

  lemma KidsIn(es: Elements, sh: Shape, d: Ptr)
    requires Valid(es, sh) && IsDir(es, d)
    ensures d in sh.kids && forall x | x in sh.kids[d] :: x in es
  {
    assert ChainedAt(es, sh, d);
  }

  lemma RemovedKeys(es: Elements, d: Ptr, s: seq<Ptr>, j: nat)
    requires j < |s| && IsDir(es, d) && s[j] in es && (j > 0 ==> s[j - 1] in es)
    ensures Removed(es, d, s, j).Keys == es.Keys - {s[j]}
  {
  }

  // ---- steps of the loops ----

  lemma ChainHead(es: Elements, t: Ptr, s: seq<Ptr>)
    requires Chain(es, t, s) && s != []
    ensures t == s[0] && t in es && t != NULL && ChainFrom(es, t, s, 0)
  {
    assert s[0..] == s;
  }

  lemma HeadIndex(s: seq<Ptr>, j: nat)
    requires j < |s| && NoDuplicates(s)
    ensures s[0] == s[j] <==> j == 0
  {
  }

  lemma ChainStep(es: Elements, t: Ptr, s: seq<Ptr>, k: nat, j: nat)
    requires ChainFrom(es, t, s, k) && t != NULL && k < j < |s| && NoDuplicates(s)
    ensures es[t].sabling == s[k + 1] && es[t].sabling in es && es[t].sabling != NULL
    ensures ChainFrom(es, es[t].sabling, s, k + 1)
    ensures es[t].sabling == s[j] <==> k + 1 == j
  {
    ChainNext(es, t, s, k);
    assert s[k + 1..][0] == s[k + 1];
  }

  lemma NamedAs(es: Elements, sh: Shape, root: Ptr, cs: seq<Path>)
    requires Valid(es, sh) && (root, cs) in sh.names
    ensures var e := sh.names[(root, cs)];
            e in es && e in sh.paths && sh.paths[e] == (root, cs) && (es[e].parent == NULL <==> cs == [])
  {
    var e := sh.names[(root, cs)];
    assert LinkedAt(es, sh, e);
  }

  /** The rest of a path from its first name on. */
  lemma RestOfName(rest: Path, t: nat)
    requires rest != "" && rest[0] != '/' && Ends(rest, 0, t)
    ensures 0 < t && Components(rest) != [] && Components(rest)[0] == rest[..t]
    ensures |Components(rest)| == 1 <==> Components(rest[t..]) == []
    ensures t == |rest| ==> |Components(rest)| == 1
  {
    assert rest[0..] == rest;
    FirstComponent(rest);
  }

  lemma RestSkipped(rest: Path, len: nat, t: nat)
    requires Skips(rest, len, t)
    ensures Components(rest[len..]) == [] <==> t == |rest|
  {
    SkippingKeepsComponents(rest[len..]);
    if t < |rest| {
      FirstComponent(rest[t..]);
    }
  }

  lemma ChainOver(es: Elements, t: Ptr, s: seq<Ptr>, i: nat)
    requires ChainFrom(es, t, s, i)
    ensures t == NULL <==> i == |s|
  {
    ChainIn(es, t, s[i..], 0);
  }

  // ---- bytes ----

  lemma NothingWritten(c: seq<Byte>, off: nat, buff: seq<Byte>)
    requires |c| <= off && |c| < off + |buff|
    ensures WriteDone(c, off, buff, -1, c)
  {
  }

  /** The copy into the grown block, or into what there is. */
  lemma Written(c: seq<Byte>, c1: seq<Byte>, off: nat, buff: seq<Byte>, n: nat)
    requires n <= |buff| && off + n <= |c1| && (n < |buff| ==> n == |c| - off && n > 0)
    requires if off + |buff| > |c| && n == |buff| then |c1| == off + n && c1[..|c|] == c else c1 == c
    ensures WriteDone(c, off, buff, n, Overwrite(c1, off, buff[..n]))
  {
    var d := Overwrite(c1, off, buff[..n]);
    if off > |c| {
      assert d[..|c|] == c && d[off..] == buff[..n];
    } else {
      assert d == Overwrite(c, off, buff[..n]) by {
        assert c1[..off] == c[..off];
      }
    }
  }

  /** c with data written over it from position off on, grown if it must be. */
  function Overwrite(c: seq<Byte>, off: nat, data: seq<Byte>): (r: seq<Byte>)
    requires off <= |c|
    ensures |r| == if off + |data| > |c| then off + |data| else |c|
  {
    c[..off] + data + (if off + |data| < |c| then c[off + |data|..] else [])
  }

  lemma OverwriteAt(c: seq<Byte>, off: nat, data: seq<Byte>, k: nat)
    requires off <= |c| && k < |Overwrite(c, off, data)|
    ensures Overwrite(c, off, data)[k] == if off <= k < off + |data| then data[k - off] else c[k]
  {
  }

  /** An overwrite is found where it was made, and nothing else is lost. */
  lemma OverwriteFound(c: seq<Byte>, off: nat, data: seq<Byte>)
    requires off <= |c|
    ensures var d := Overwrite(c, off, data);
            && off + |data| <= |d| && d[off..off + |data|] == data
            && forall i | 0 <= i < |c| && (i < off || i >= off + |data|) :: i < |d| && d[i] == c[i]
  {
    var d := Overwrite(c, off, data);
    forall k | 0 <= k < |d|
      ensures d[k] == if off <= k < off + |data| then data[k - off] else c[k]
    {
      OverwriteAt(c, off, data, k);
    }
  }

  /** What a write of buff at off makes of the bytes c, by the count n it returns. */
  predicate WriteDone(c: seq<Byte>, off: nat, buff: seq<Byte>, n: int, d: seq<Byte>) {
    if n == -1 then d == c && |c| <= off && |c| < off + |buff|
    else
      && 0 <= n <= |buff| && (n < |buff| ==> n == |c| - off && n > 0)
      && (off <= |c| ==> d == Overwrite(c, off, buff[..n]))
      && (off > |c| ==> |d| == off + n && d[..|c|] == c && d[off..] == buff[..n])
  }

  function NotNegative(x: int): nat {
    if x < 0 then 0 else x
  }

  datatype Whence = SeekSet | SeekCur | SeekEnd | SeekOther

  /** All roots stay roots. */
  ghost predicate KeepsRoots(sh: Shape, rh: Shape) {
    forall r: Ptr | IsRoot(sh, r) :: IsRoot(rh, r)
  }

  lemma RenamedRoots(sh: Shape, up: Key, n: Path, m: Path)
    requires Vacant(sh, up, m)
    ensures KeepsRoots(sh, RenamedShape(sh, up, n, m))
  {
    MovedApart(sh, up, n, m);
    forall r: Ptr | IsRoot(sh, r)
      ensures IsRoot(RenamedShape(sh, up, n, m), r)
    {
      assert Moved((r, []), up, n, m) == (r, []);
    }
  }

  // ---- roots ----

  function WithRoot(es: Elements, r: Ptr): Elements {
    es[r := Element("", NULL, NULL, 0, Dir(NULL))]
  }

  function WithRootShape(sh: Shape, r: Ptr): Shape {
    Shape(sh.kids[r := []], sh.names[(r, []) := r], sh.paths[r := (r, [])])
  }

  lemma RootKeepsValid(es: Elements, sh: Shape, r: Ptr)
    requires Valid(es, sh) && r !in es && r != NULL
    ensures Valid(WithRoot(es, r), WithRootShape(sh, r)) && (r, []) !in sh.names
  {
    var fs, rh := WithRoot(es, r), WithRootShape(sh, r);
    RootIsNew(es, sh, r);
    RootKeepsNames(es, sh, r);
    hide Bijective, LinkedAt, ChainedAt;
    forall x | x in fs
      ensures LinkedAt(fs, rh, x)
    {
      RootKeepsLinks(es, sh, r, x);
    }
    forall x | x in fs && fs[x].body.Dir?
      ensures ChainedAt(fs, rh, x)
    {
      RootKeepsChains(es, sh, r, x);
    }
  }

  lemma RootKeepsNames(es: Elements, sh: Shape, r: Ptr)
    requires Bijective(es, sh) && r !in es && r != NULL && (r, []) !in sh.names
    ensures Bijective(WithRoot(es, r), WithRootShape(sh, r))
  {
  }

  lemma RootKeepsLinks(es: Elements, sh: Shape, r: Ptr, x: Ptr)
    requires Valid(es, sh) && r !in es && r != NULL && x in WithRoot(es, r)
    ensures LinkedAt(WithRoot(es, r), WithRootShape(sh, r), x)
  {
    hide Valid;
    if x != r {
      ParentIn(es, sh, x);
      LinkedFrame(es, sh, WithRoot(es, r), WithRootShape(sh, r), x);
    }
  }

  lemma RootIsNew(es: Elements, sh: Shape, r: Ptr)
    requires Valid(es, sh) && r !in es && r != NULL
    ensures (r, []) !in sh.names
  {
    hide ChainedAt;
    forall k | k in sh.names && k.1 == []
      ensures k.0 in es
    {
      assert LinkedAt(es, sh, sh.names[k]);
    }
  }

  lemma RootKeepsChains(es: Elements, sh: Shape, r: Ptr, x: Ptr)
    requires Valid(es, sh) && r !in es && r != NULL && IsDir(WithRoot(es, r), x)
    ensures ChainedAt(WithRoot(es, r), WithRootShape(sh, r), x)
  {
    hide LinkedAt;
    NoOrphans(es, sh, r);
    if x != r {
      assert ChainedAt(es, sh, x);
      ChainFrame(es, WithRoot(es, r), es[x].body.child, sh.kids[x]);
    }
  }
}
