/** Reference counts: what the counters of elements, mount points and file systems must say
    about the handles that are open and the mount points there are. */
module VfsRefs {
  import opened Basics
  import opened VfsPaths
  import opened VfsMount
  import opened RamfsTree
  import opened RamfsEdit
  import opened RamfsSpec

  /** An entry of the file table between calls. */
  datatype File = NotUsed | Ready(flags: Flags, mp: Ptr, data: Ptr, offset: int)

  /** An open directory. */
  datatype OpenDir = OpenDir(mp: Ptr, data: Ptr, offset: nat)

  datatype MountPoint = MountPoint(fs: string, path: Path, refs: nat, root: Ptr)

  datatype Handle = Fd(i: nat) | DirAt(p: Ptr)

  // ---- counting ----

  ghost function Uses<K, V>(m: map<K, V>, v: V): nat {
    |set k | k in m && m[k] == v|
  }

  lemma UsesAdded<K, V>(m: map<K, V>, k: K, v: V, w: V)
    requires k !in m
    ensures Uses(m[k := v], w) == Uses(m, w) + if v == w then 1 else 0
  {
    var n := m[k := v];
    var s, t := set j | j in m && m[j] == w, set j | j in n && n[j] == w;
    if v == w {
      assert t == s + {k};
    } else {
      assert t == s;
    }
  }

  lemma UsesRemoved<K, V>(m: map<K, V>, k: K, w: V)
    requires k in m
    ensures Uses(m, w) == Uses(m - {k}, w) + if m[k] == w then 1 else 0
  {
    var r := m - {k};
    assert r[k := m[k]] == m;
    UsesAdded(r, k, m[k], w);
  }

  lemma UsesNone<K, V>(m: map<K, V>, w: V)
    ensures Uses(m, w) == 0 <==> forall k | k in m :: m[k] != w
  {
    var s := set j | j in m && m[j] == w;
    if s != {} {
      var k :| k in s;
      assert s == {k} + (s - {k});
    }
    forall k | k in m && m[k] == w
      ensures Uses(m, w) != 0
    {
      assert k in s;
    }
  }

  // ---- the invariants ----

  /** data and at map every open handle to its element and to its mount point. */
  ghost predicate Handles(files: seq<File>, dirs: map<Ptr, OpenDir>, data: map<Handle, Ptr>, at: map<Handle, Ptr>) {
    && |files| == MAX_FILES && data.Keys == at.Keys
    && (forall i: nat :: Fd(i) in data <==> i < MAX_FILES && files[i].Ready?)
    && (forall p: Ptr :: DirAt(p) in data <==> p in dirs)
    && (forall i: nat | i < MAX_FILES && files[i].Ready? :: data[Fd(i)] == files[i].data && at[Fd(i)] == files[i].mp)
    && (forall p: Ptr | p in dirs :: data[DirAt(p)] == dirs[p].data && at[DirAt(p)] == dirs[p].mp)
  }

  /** An element's counter is the number of handles it is open under. */
  ghost predicate ElementRefs(es: Elements, data: map<Handle, Ptr>) {
    && (forall h | h in data :: data[h] in es)
    && (forall e | e in es :: es[e].refs == Uses(data, e))
  }

  /** Files are open as files, at positions within them; directories as directories. */
  ghost predicate Positions(es: Elements, files: seq<File>, dirs: map<Ptr, OpenDir>) {
    && (forall i | 0 <= i < |files| && files[i].Ready? ::
          files[i].data in es && es[files[i].data].body.File?
          && 0 <= files[i].offset <= |es[files[i].data].body.content|)
    && (forall p | p in dirs :: IsDir(es, dirs[p].data))
  }

  /** A mount point's counter is the number of handles that are open on it. */
  ghost predicate MountRefs(mps: map<Ptr, MountPoint>, at: map<Handle, Ptr>) {
    && (forall h | h in at :: at[h] in mps)
    && (forall m | m in mps :: mps[m].refs == Uses(at, m))
  }

  function FsOf(mps: map<Ptr, MountPoint>): map<Ptr, string> {
    map m | m in mps :: mps[m].fs
  }

  /** A file system's counter is the number of its mount points. */
  ghost predicate FsRefs(fss: map<string, nat>, mps: map<Ptr, MountPoint>) {
    && (forall m | m in mps :: mps[m].fs in fss)
    && (forall f | f in fss :: fss[f] == Uses(FsOf(mps), f))
  }

  function PathsOf(order: seq<Ptr>, mps: map<Ptr, MountPoint>): (r: seq<Path>)
    requires forall m | m in order :: m in mps
    ensures |r| == |order| && forall k | 0 <= k < |r| :: r[k] == mps[order[k]].path
  {
    if order == [] then []
    else
      assert forall m | m in order[1..] :: m in order;
      [mps[order[0]].path] + PathsOf(order[1..], mps)
  }

  /** The list of mount points, no two of which have the same names, each with a root. */
  ghost predicate Mounts(sh: Shape, order: seq<Ptr>, mps: map<Ptr, MountPoint>) {
    && NoDuplicates(order) && (forall m: Ptr :: m in order <==> m in mps)
    && Distinct(PathsOf(order, mps))
    && (forall m | m in mps :: IsRoot(sh, mps[m].root))
  }

  // ---- elements and the handles on them ----

  /** Files do not shrink and nothing goes. */
  ghost predicate Grows(es: Elements, fs: Elements) {
    forall x | x in es :: x in fs &&
      if es[x].body.Dir? then fs[x].body.Dir? else fs[x].body.File? && |es[x].body.content| <= |fs[x].body.content|
  }

  lemma PositionsGrow(es: Elements, fs: Elements, files: seq<File>, dirs: map<Ptr, OpenDir>)
    requires Positions(es, files, dirs) && Grows(es, fs)
    ensures Positions(fs, files, dirs)
  {
  }

  lemma OpenGrows(es: Elements, sh: Shape, fs: Elements, rh: Shape, root: Ptr, path: Path, flags: Flags, heap: bool,
                  r: Opened)
    requires OpenDone(es, sh, fs, rh, root, path, flags, heap, r) && r.Opened?
    ensures Grows(es, fs) && r.data in fs && fs[r.data].body.File? && r.offset <= |fs[r.data].body.content|
    ensures KeepsRoots(sh, rh)
  {
    hide Components, NamesElement, NamesVacancy;
  }

  lemma OpenCounts(es: Elements, sh: Shape, fs: Elements, rh: Shape, root: Ptr, path: Path, flags: Flags, heap: bool,
                   r: Opened, data: map<Handle, Ptr>, h: Handle)
    requires OpenDone(es, sh, fs, rh, root, path, flags, heap, r) && r.Opened?
    requires ElementRefs(es, data) && h !in data
    ensures ElementRefs(fs, data[h := r.data])
  {
    hide Components, NamesElement, NamesVacancy;
    var d := data[h := r.data];
    assert r.data in fs && fs.Keys == es.Keys + {r.data};
    assert forall x | x in es :: fs[x].refs == es[x].refs + if x == r.data then 1 else 0;
    assert r.data !in es ==> fs[r.data].refs == 1;
    hide Uses, OpenDone;
    forall e | e in fs
      ensures fs[e].refs == Uses(d, e)
    {
      UsesAdded(data, h, r.data, e);
      UsesNone(data, e);
    }
  }

  /** Opening a directory counts one more. */
  lemma CountOne(es: Elements, data: map<Handle, Ptr>, h: Handle, e: Ptr)
    requires ElementRefs(es, data) && h !in data && e in es
    ensures ElementRefs(es[e := es[e].(refs := es[e].refs + 1)], data[h := e])
  {
    hide Uses;
    forall x | x in es
      ensures Uses(data[h := e], x) == Uses(data, x) + if e == x then 1 else 0
    {
      UsesAdded(data, h, e, x);
    }
  }

  /** Closing a handle counts one less; the counter is not zero before. */
  lemma CountDown(es: Elements, data: map<Handle, Ptr>, h: Handle)
    requires ElementRefs(es, data) && h in data
    ensures data[h] in es && es[data[h]].refs > 0
    ensures ElementRefs(es[data[h] := es[data[h]].(refs := es[data[h]].refs - 1)], data - {h})
  {
    hide Uses;
    var e := data[h];
    forall x | x in es
      ensures Uses(data, x) == Uses(data - {h}, x) + if e == x then 1 else 0
    {
      UsesRemoved(data, h, x);
    }
  }

  lemma MountCountOne(mps: map<Ptr, MountPoint>, at: map<Handle, Ptr>, h: Handle, m: Ptr)
    requires MountRefs(mps, at) && h !in at && m in mps
    ensures MountRefs(mps[m := mps[m].(refs := mps[m].refs + 1)], at[h := m])
  {
    hide Uses;
    forall x | x in mps
      ensures Uses(at[h := m], x) == Uses(at, x) + if m == x then 1 else 0
    {
      UsesAdded(at, h, m, x);
    }
  }

  lemma MountCountDown(mps: map<Ptr, MountPoint>, at: map<Handle, Ptr>, h: Handle)
    requires MountRefs(mps, at) && h in at
    ensures at[h] in mps && mps[at[h]].refs > 0
    ensures MountRefs(mps[at[h] := mps[at[h]].(refs := mps[at[h]].refs - 1)], at - {h})
  {
    hide Uses;
    var m := at[h];
    forall x | x in mps
      ensures Uses(at, x) == Uses(at - {h}, x) + if m == x then 1 else 0
    {
      UsesRemoved(at, h, x);
    }
  }

  /** A counter of zero means that nobody has the element open. */
  lemma UnusedElement(es: Elements, data: map<Handle, Ptr>, e: Ptr)
    requires ElementRefs(es, data) && e in es && es[e].refs == 0
    ensures forall h | h in data :: data[h] != e
  {
    UsesNone(data, e);
  }

  lemma UnusedMount(mps: map<Ptr, MountPoint>, at: map<Handle, Ptr>, m: Ptr)
    requires MountRefs(mps, at) && m in mps && mps[m].refs == 0
    ensures forall h | h in at :: at[h] != m
  {
    UsesNone(at, m);
  }

  /** Elements that no counter changes on, and those that go are not open. */
  lemma CountsKept(es: Elements, fs: Elements, data: map<Handle, Ptr>)
    requires ElementRefs(es, data)
    requires forall e | e in fs && e in es :: fs[e].refs == es[e].refs
    requires forall e | e in fs && e !in es :: fs[e].refs == 0
    requires forall e | e in es && e !in fs :: es[e].refs == 0
    ensures ElementRefs(fs, data)
  {
    hide Uses;
    forall e | e in es && e !in fs
      ensures forall h | h in data :: data[h] != e
    {
      UnusedElement(es, data, e);
    }
    forall e | e in fs && e !in es
      ensures Uses(data, e) == 0
    {
      UsesNone(data, e);
    }
  }

  // ---- mount points ----

  ghost predicate SamePaths(mps: map<Ptr, MountPoint>, nps: map<Ptr, MountPoint>) {
    nps.Keys == mps.Keys && forall m | m in mps ::
      nps[m].path == mps[m].path && nps[m].root == mps[m].root && nps[m].fs == mps[m].fs
  }

  lemma PathsKept(order: seq<Ptr>, mps: map<Ptr, MountPoint>, nps: map<Ptr, MountPoint>)
    requires (forall m | m in order :: m in mps) && SamePaths(mps, nps)
    ensures PathsOf(order, nps) == PathsOf(order, mps) && FsOf(nps) == FsOf(mps)
  {
    hide PathsOf;
    assert forall k | 0 <= k < |order| :: order[k] in order;
  }

  lemma MountsKept(sh: Shape, rh: Shape, order: seq<Ptr>, mps: map<Ptr, MountPoint>, nps: map<Ptr, MountPoint>,
                   fss: map<string, nat>)
    requires Mounts(sh, order, mps) && FsRefs(fss, mps) && SamePaths(mps, nps) && KeepsRoots(sh, rh)
    ensures Mounts(rh, order, nps) && FsRefs(fss, nps)
  {
    hide Distinct, Uses, PathsOf, NoDuplicates, FsOf, IsRoot;
    PathsKept(order, mps, nps);
  }

  lemma FsAdded(mps: map<Ptr, MountPoint>, fss: map<string, nat>, m: Ptr, mp: MountPoint)
    requires FsRefs(fss, mps) && m !in mps && mp.fs in fss
    ensures FsRefs(fss[mp.fs := fss[mp.fs] + 1], mps[m := mp])
  {
    assert FsOf(mps[m := mp]) == FsOf(mps)[m := mp.fs];
    hide Uses;
    forall f | f in fss
      ensures Uses(FsOf(mps[m := mp]), f) == Uses(FsOf(mps), f) + if mp.fs == f then 1 else 0
    {
      UsesAdded(FsOf(mps), m, mp.fs, f);
    }
  }

  lemma MountAdded(sh: Shape, order: seq<Ptr>, mps: map<Ptr, MountPoint>, m: Ptr, mp: MountPoint)
    requires Mounts(sh, order, mps) && m !in mps && IsRoot(sh, mp.root)
    requires forall x | x in mps && Components(mps[x].path) != [] :: Components(mps[x].path) != Components(mp.path)
    ensures Mounts(sh, [m] + order, mps[m := mp])
  {
    hide Distinct, Components, PathsOf, NoDuplicates, IsRoot;
    HeadIsNew(m, order);
    DistinctAdded(order, mps, m, mp);
  }

  lemma DistinctAdded(order: seq<Ptr>, mps: map<Ptr, MountPoint>, m: Ptr, mp: MountPoint)
    requires (forall x | x in order :: x in mps) && Distinct(PathsOf(order, mps)) && m !in mps
    requires forall x | x in mps && Components(mps[x].path) != [] :: Components(mps[x].path) != Components(mp.path)
    ensures forall x | x in [m] + order :: x in mps[m := mp]
    ensures Distinct(PathsOf([m] + order, mps[m := mp]))
  {
    hide Components, PathsOf;
    var ps := PathsOf(order, mps);
    var qs := PathsOf([m] + order, mps[m := mp]);
    assert forall k | 0 <= k < |order| :: order[k] in order && ([m] + order)[k + 1] == order[k];
    assert forall k | 0 <= k < |order| :: qs[k + 1] == ps[k];
    forall j, k | 0 <= j < k < |qs| && Components(qs[j]) != []
      ensures Components(qs[j]) != Components(qs[k])
    {
      assert qs[k] == ps[k - 1];
      if j > 0 {
        assert qs[j] == ps[j - 1];
      } else {
        assert ps[k - 1] == mps[order[k - 1]].path;
      }
    }
  }

  lemma FsRemoved(mps: map<Ptr, MountPoint>, fss: map<string, nat>, m: Ptr)
    requires FsRefs(fss, mps) && m in mps
    ensures mps[m].fs in fss && fss[mps[m].fs] > 0
    ensures FsRefs(fss[mps[m].fs := fss[mps[m].fs] - 1], mps - {m})
  {
    var f, nps := mps[m].fs, mps - {m};
    assert FsOf(nps) == FsOf(mps) - {m};
    hide Uses;
    forall g | g in fss
      ensures Uses(FsOf(mps), g) == Uses(FsOf(nps), g) + if f == g then 1 else 0
    {
      UsesRemoved(FsOf(mps), m, g);
    }
  }

  lemma MountRemoved(sh: Shape, order: seq<Ptr>, mps: map<Ptr, MountPoint>, j: nat)
    requires Mounts(sh, order, mps) && j < |order|
    ensures order[j] in mps && Mounts(sh, Without(order, j), mps - {order[j]})
  {
    hide Distinct, Components, Without, PathsOf, IsRoot, NoDuplicates;
    assert order[j] in order;
    WithoutElements(order, j);
    DistinctWithout(order, mps, j);
  }

  lemma DistinctWithout(order: seq<Ptr>, mps: map<Ptr, MountPoint>, j: nat)
    requires (forall m | m in order :: m in mps) && NoDuplicates(order) && j < |order| && Distinct(PathsOf(order, mps))
    ensures forall m | m in Without(order, j) :: m in mps - {order[j]}
    ensures Distinct(PathsOf(Without(order, j), mps - {order[j]}))
  {
    hide Components, PathsOf, NoDuplicates;
    WithoutElements(order, j);
    var ps, qs := PathsOf(order, mps), PathsOf(Without(order, j), mps - {order[j]});
    forall k: nat | k < |qs|
      ensures qs[k] == ps[if k < j then k else k + 1]
    {
      assert Without(order, j)[k] in Without(order, j);
    }
  }

  /** Where a path leads: the mount point with the most names that begin it, and the rest. */
  ghost predicate Located(mps: map<Ptr, MountPoint>, path: Path, r: Option<(Ptr, Path)>) {
    match r
    case None => forall m | m in mps :: !Candidate(mps[m].path, path)
    case Some((m, rest)) =>
      && m in mps && Candidate(mps[m].path, path) && LeftOf(path, Components(mps[m].path), rest)
      && (forall n | n in mps && Candidate(mps[n].path, path) ::
            |Components(mps[n].path)| <= |Components(mps[m].path)|)
  }

  lemma LongestLocates(sh: Shape, order: seq<Ptr>, mps: map<Ptr, MountPoint>, path: Path, r: Option<(nat, Path)>)
    requires Mounts(sh, order, mps) && Longest(PathsOf(order, mps), path, r)
    ensures r.None? ==> Located(mps, path, None)
    ensures r.Some? ==> r.value.0 < |order| && Located(mps, path, Some((order[r.value.0], r.value.1)))
  {
    hide Candidate, LeftOf, Components, Distinct;
    forall m | m in mps
      ensures exists k: nat :: k < |order| && PathsOf(order, mps)[k] == mps[m].path
    {
      var k: nat :| k < |order| && order[k] == m;
      assert PathsOf(order, mps)[k] == mps[m].path;
    }
  }

  /** Nothing is left of a path exactly when its names are those of a mount point. */
  lemma WholePath(mps: map<Ptr, MountPoint>, path: Path, r: Option<(Ptr, Path)>)
    requires Located(mps, path, r)
    ensures r.Some? && r.value.1 == "" <==>
              Components(path) != [] && exists m :: m in mps && Components(mps[m].path) == Components(path)
    ensures r.Some? && r.value.1 == "" ==> Components(mps[r.value.0].path) == Components(path)
  {
    if r.Some? {
      RestEmpty(r.value.1);
    }
    hide Components;
  }

  lemma RestEmpty(rest: Path)
    requires rest == "" || rest[0] != '/'
    ensures rest == "" <==> Components(rest) == []
  {
    if rest != "" {
      FirstComponent(rest);
    }
  }

  lemma FsUnused(mps: map<Ptr, MountPoint>, fss: map<string, nat>, f: string)
    requires FsRefs(fss, mps)
    ensures f !in fss ==> FsRefs(fss[f := 0], mps)
    ensures f in fss && fss[f] == 0 ==> FsRefs(fss - {f}, mps)
  {
    UsesNone(FsOf(mps), f);
    hide Uses;
    assert forall m | m in mps :: FsOf(mps)[m] == mps[m].fs;
  }

  lemma NewMountRefs(mps: map<Ptr, MountPoint>, at: map<Handle, Ptr>, m: Ptr, mp: MountPoint)
    requires MountRefs(mps, at) && m !in mps && mp.refs == 0
    ensures MountRefs(mps[m := mp], at)
  {
    UsesNone(at, m);
    hide Uses;
  }

  lemma GoneMountRefs(mps: map<Ptr, MountPoint>, at: map<Handle, Ptr>, m: Ptr)
    requires MountRefs(mps, at) && m in mps && mps[m].refs == 0
    ensures MountRefs(mps - {m}, at) && forall h | h in at :: at[h] != m
  {
    UnusedMount(mps, at, m);
    hide Uses;
  }

  // ---- opening and closing entries of the table ----

  lemma HandleOpened(files: seq<File>, dirs: map<Ptr, OpenDir>, data: map<Handle, Ptr>, at: map<Handle, Ptr>,
                     i: nat, f: File)
    requires Handles(files, dirs, data, at) && i < MAX_FILES && files[i].NotUsed? && f.Ready?
    ensures Fd(i) !in data && Fd(i) !in at
    ensures Handles(files[i := f], dirs, data[Fd(i) := f.data], at[Fd(i) := f.mp])
  {
  }

  lemma HandleClosed(files: seq<File>, dirs: map<Ptr, OpenDir>, data: map<Handle, Ptr>, at: map<Handle, Ptr>, i: nat)
    requires Handles(files, dirs, data, at) && i < MAX_FILES && files[i].Ready?
    ensures Fd(i) in data && Fd(i) in at && data[Fd(i)] == files[i].data && at[Fd(i)] == files[i].mp
    ensures Handles(files[i := NotUsed], dirs, data - {Fd(i)}, at - {Fd(i)})
  {
  }

  lemma HandleMoved(files: seq<File>, dirs: map<Ptr, OpenDir>, data: map<Handle, Ptr>, at: map<Handle, Ptr>,
                    i: nat, offset: int)
    requires Handles(files, dirs, data, at) && i < MAX_FILES && files[i].Ready?
    ensures Handles(files[i := files[i].(offset := offset)], dirs, data, at)
  {
  }

  lemma DirOpened(files: seq<File>, dirs: map<Ptr, OpenDir>, data: map<Handle, Ptr>, at: map<Handle, Ptr>,
                  p: Ptr, d: OpenDir)
    requires Handles(files, dirs, data, at) && p !in dirs
    ensures DirAt(p) !in data && DirAt(p) !in at
    ensures Handles(files, dirs[p := d], data[DirAt(p) := d.data], at[DirAt(p) := d.mp])
  {
  }

  lemma DirClosed(files: seq<File>, dirs: map<Ptr, OpenDir>, data: map<Handle, Ptr>, at: map<Handle, Ptr>, p: Ptr)
    requires Handles(files, dirs, data, at) && p in dirs
    ensures DirAt(p) in data && DirAt(p) in at && data[DirAt(p)] == dirs[p].data && at[DirAt(p)] == dirs[p].mp
    ensures Handles(files, dirs - {p}, data - {DirAt(p)}, at - {DirAt(p)})
  {
  }

  lemma RefsGrow(es: Elements, e: Ptr, refs: nat)
    requires e in es
    ensures Grows(es, es[e := es[e].(refs := refs)])
  {
  }

  // ---- what unlink, rename and mkdir leave ----

  lemma UnlinkKeeps(es: Elements, sh: Shape, fs: Elements, rh: Shape, root: Ptr, path: Path, ok: bool,
                    files: seq<File>, dirs: map<Ptr, OpenDir>, data: map<Handle, Ptr>, at: map<Handle, Ptr>)
    requires Valid(es, sh) && UnlinkDone(es, sh, fs, rh, root, path, ok)
    requires Handles(files, dirs, data, at) && ElementRefs(es, data) && Positions(es, files, dirs)
    ensures ElementRefs(fs, data) && Positions(fs, files, dirs) && KeepsRoots(sh, rh)
    ensures ok ==> forall h | h in data :: data[h] != sh.names[(root, Components(path))]
  {
    hide Components, Uses, Handles, LinkedAt, ChainedAt;
    if ok {
      var e := sh.names[(root, Components(path))];
      UnusedElement(es, data, e);
      CountsKept(es, fs, data);
      PositionsKept(es, fs, files, dirs, data, at);
    }
  }

  lemma PositionsKept(es: Elements, fs: Elements, files: seq<File>, dirs: map<Ptr, OpenDir>,
                      data: map<Handle, Ptr>, at: map<Handle, Ptr>)
    requires Handles(files, dirs, data, at) && Positions(es, files, dirs)
    requires forall h | h in data && data[h] in es :: data[h] in fs && Alike(es[data[h]], fs[data[h]])
    ensures Positions(fs, files, dirs)
  {
    forall i: nat | i < |files| && files[i].Ready?
      ensures files[i].data in fs && Alike(es[files[i].data], fs[files[i].data])
    {
      assert Fd(i) in data;
    }
    forall p: Ptr | p in dirs
      ensures dirs[p].data in fs && Alike(es[dirs[p].data], fs[dirs[p].data])
    {
      assert DirAt(p) in data;
    }
  }

  lemma RenameKeeps(es: Elements, sh: Shape, fs: Elements, rh: Shape, root: Ptr, path: Path, newPath: Path, ok: bool,
                    files: seq<File>, dirs: map<Ptr, OpenDir>, data: map<Handle, Ptr>)
    requires RenameDone(es, sh, fs, rh, root, path, newPath, ok)
    requires ElementRefs(es, data) && Positions(es, files, dirs)
    ensures ElementRefs(fs, data) && Positions(fs, files, dirs) && KeepsRoots(sh, rh)
  {
    hide Components, Vacant, RenamedShape, Renamed, ElementRefs, Positions;
    if ok {
      var cs, ds := Components(path), Components(newPath);
      RenamedRoots(sh, Parent((root, cs)), cs[|cs| - 1], ds[|ds| - 1]);
      RenamedGrows(es, sh.names[(root, cs)], ds[|ds| - 1]);
      CountsKept(es, fs, data);
      PositionsGrow(es, fs, files, dirs);
    }
  }

  lemma RenamedGrows(es: Elements, e: Ptr, m: Path)
    requires e in es
    ensures Grows(es, Renamed(es, e, m)) && Renamed(es, e, m).Keys == es.Keys
    ensures forall x | x in es :: Renamed(es, e, m)[x].refs == es[x].refs
  {
  }

  lemma MkdirKeeps(es: Elements, sh: Shape, fs: Elements, rh: Shape, root: Ptr, path: Path, heap: bool, ok: bool,
                   files: seq<File>, dirs: map<Ptr, OpenDir>, data: map<Handle, Ptr>)
    requires MkdirDone(es, sh, fs, rh, root, path, heap, ok)
    requires ElementRefs(es, data) && Positions(es, files, dirs)
    ensures ElementRefs(fs, data) && Positions(fs, files, dirs) && KeepsRoots(sh, rh)
  {
    hide Components, Uses, NamesVacancy;
    if ok {
      CountsKept(es, fs, data);
      PositionsGrow(es, fs, files, dirs);
    }
  }

  // ---- small steps of the calls ----

  lemma TableSize(files: seq<File>, dirs: map<Ptr, OpenDir>, data: map<Handle, Ptr>, at: map<Handle, Ptr>)
    requires Handles(files, dirs, data, at)
    ensures |files| == MAX_FILES
  {
  }

  lemma OpenFailsUnchanged(es: Elements, sh: Shape, fs: Elements, rh: Shape, root: Ptr, path: Path, flags: Flags,
                           heap: bool, r: Opened)
    requires OpenDone(es, sh, fs, rh, root, path, flags, heap, r) && r.OpenFails?
    ensures fs == es && rh == sh
  {
  }

  lemma PositionOpened(es: Elements, fs: Elements, files: seq<File>, dirs: map<Ptr, OpenDir>, i: nat, f: File)
    requires Positions(es, files, dirs) && Grows(es, fs) && i < |files| && f.Ready?
    requires f.data in fs && fs[f.data].body.File? && 0 <= f.offset <= |fs[f.data].body.content|
    ensures Positions(fs, files[i := f], dirs)
  {
    PositionsGrow(es, fs, files, dirs);
  }

  lemma PositionClosed(es: Elements, files: seq<File>, dirs: map<Ptr, OpenDir>, i: nat)
    requires Positions(es, files, dirs) && i < |files|
    ensures Positions(es, files[i := NotUsed], dirs)
  {
  }

  /** A mount point with the names of path, of which there are some. */
  ghost predicate IsMounted(mps: map<Ptr, MountPoint>, path: Path) {
    Components(path) != [] && exists m :: m in mps && Components(mps[m].path) == Components(path)
  }

  lemma WholeIsMounted(mps: map<Ptr, MountPoint>, path: Path, r: Option<(Ptr, Path)>)
    requires Located(mps, path, r)
    ensures r.Some? && r.value.1 == "" <==> IsMounted(mps, path)
  {
    hide Located, Components;
    WholePath(mps, path, r);
  }

  lemma NotMounted(mps: map<Ptr, MountPoint>, path: Path)
    requires !IsMounted(mps, path)
    ensures forall x | x in mps && Components(mps[x].path) != [] :: Components(mps[x].path) != Components(path)
  {
    hide Components;
  }

  /** The path leads to a directory. */
  ghost predicate OpensDir(es: Elements, sh: Shape, mps: map<Ptr, MountPoint>, where: Option<(Ptr, Path)>) {
    where.Some? && where.value.0 in mps
    && var (root, rest) := (mps[where.value.0].root, where.value.1);
    NamesElement(es, sh, root, rest) && IsDir(es, sh.names[(root, Components(rest))])
  }

  predicate IsOpen(files: seq<File>, fd: int) {
    0 <= fd < |files| && files[fd].Ready?
  }

  lemma PositionOf(es: Elements, files: seq<File>, dirs: map<Ptr, OpenDir>, i: nat)
    requires Positions(es, files, dirs) && i < |files| && files[i].Ready?
    ensures files[i].data in es && es[files[i].data].body.File?
    ensures 0 <= files[i].offset <= |es[files[i].data].body.content|
  {
  }

  lemma PositionDir(es: Elements, files: seq<File>, dirs: map<Ptr, OpenDir>, p: Ptr, d: OpenDir)
    requires Positions(es, files, dirs) && IsDir(es, d.data)
    ensures Positions(es, files, dirs[p := d])
  {
  }

  lemma PositionNoDir(es: Elements, files: seq<File>, dirs: map<Ptr, OpenDir>, p: Ptr)
    requires Positions(es, files, dirs)
    ensures Positions(es, files, dirs - {p})
  {
  }

  /** From a position within the file there are no holes: the write is an overwrite. */
  lemma WriteAtEnd(c: seq<Byte>, off: nat, buff: seq<Byte>, n: int, d: seq<Byte>)
    requires WriteDone(c, off, buff, n, d) && off <= |c| && buff != []
    ensures n == -1 ==> d == c && off == |c|
    ensures n != -1 ==> 0 < n <= |buff| && (n < |buff| ==> off + n == |c|) && d == Overwrite(c, off, buff[..n])
    ensures |c| <= |d| && off + (if n == -1 then 0 else n) <= |d|
  {
  }

  lemma WriteCounts(es: Elements, e: Ptr, body: Body, data: map<Handle, Ptr>)
    requires ElementRefs(es, data) && e in es
    ensures ElementRefs(es[e := es[e].(body := body)], data)
  {
    hide Uses;
  }

  lemma WritePositions(es: Elements, files: seq<File>, dirs: map<Ptr, OpenDir>, i: nat, body: Body, to: nat)
    requires Positions(es, files, dirs) && i < |files| && files[i].Ready?
    requires files[i].data in es && es[files[i].data].body.File? && body.File?
    requires |es[files[i].data].body.content| <= |body.content| && to <= |body.content|
    ensures var e := files[i].data;
            Positions(es[e := es[e].(body := body)], files[i := files[i].(offset := to)], dirs)
  {
    var e := files[i].data;
    PositionsGrow(es, es[e := es[e].(body := body)], files, dirs);
  }
}
