/** The operations of the RAM file system on its elements. */
module Ramfs {
  import opened Basics
  import opened VfsPaths
  import opened RamfsTree
  import opened RamfsEdit
  import opened RamfsSpec

  class Ramfs {
    var elems: Elements
    ghost var shape: Shape

    ghost predicate Valid()
      reads this
    {
      RamfsTree.Valid(elems, shape)
    }

    constructor ()
      ensures Valid() && elems == map[]
    {
      elems := map[];
      shape := Shape(map[], map[], map[]);
    }

    /** The entry of d with the given name, or NULL. */
    method Search(d: Ptr, name: Path) returns (t: Ptr)
      requires Valid() && IsDir(elems, d) && d in shape.paths
      ensures var key := (shape.paths[d].0, shape.paths[d].1 + [name]);
              if key in shape.names then t == shape.names[key] && t != NULL else t == NULL
    {
      ghost var s := KidsOf(elems, shape, d);
      ghost var j := 0;
      hide RamfsTree.Valid, Chain;
      t := elems[d].body.child;
      while t != NULL && elems[t].name != name
        invariant j <= |s| && ChainFrom(elems, t, s, j)
        invariant forall k | 0 <= k < j :: s[k] in elems && elems[s[k]].name != name
        decreases |s| - j
      {
        ChainNext(elems, t, s, j);
        t := elems[t].sabling;
        j := j + 1;
      }
      Searched(elems, shape, d, name, t, j);
    }

    /** ramfs_file_find. */
    method FileFind(root: Ptr, path: Path) returns (r: Found)
      requires Valid() && IsRoot(shape, root)
      ensures Answers(elems, shape, root, path, r)
    {
      hide Components, Walking, FoundAt, StuckAt, RamfsTree.Valid, Skips, Ends;
      var walk, i: nat := root, 0;
      ghost var done: seq<Path> := [];
      WalkStarts(elems, shape, root, path);
      while true
        invariant i <= |path| && Walking(elems, shape, root, path, done, i, walk)
        invariant IsDir(elems, walk) || i < |path|
        decreases |path| - i
      {
        WalkIn(elems, shape, root, path, done, i, walk);
        if elems[walk].body.File? {
          WalkHitsFile(elems, shape, root, path, done, i, walk);
          return Stuck(ENOTDIR);
        }
        ghost var i0 := i;
        i := SkipTo(path, i);
        WalkSkips(elems, shape, root, path, done, i0, i, walk);
        var t := FindSlash(path, i);
        if t - i >= MAX_NAME {
          WalkTooLong(elems, shape, root, path, done, i, t, walk);
          return Stuck(ENAMETOOLONG);
        }
        var e := Search(walk, path[i..t]);
        if e == NULL {
          if i == |path| {
            WalkEnds(elems, shape, root, path, done, walk);
          } else {
            WalkMisses(elems, shape, root, path, done, i, t, walk);
          }
          return Found(walk, path[i..]);
        }
        NoEmptyName(elems, shape, root, done, path[i..t]);
        WalkGoesOn(elems, shape, root, path, done, i, t, walk, e);
        done := done + [path[i..t]];
        i, walk := t, e;
        if i == |path| {
          break;
        }
      }
      WalkEnds(elems, shape, root, path, done, walk);
      return Found(walk, "");
    }

    /** Allocation gives an address that is not in use. */
    method Malloc() returns (p: Ptr)
      ensures p != NULL && p !in elems
    {
      FreshExists(elems.Keys);
      p :| p != NULL && p !in elems;
    }

    /** ramfs_open: f_data and the offset it leaves in the file. */
    method Open(root: Ptr, path: Path, flags: Flags, heap: bool) returns (r: Opened)
      requires Valid() && IsRoot(shape, root)
      modifies this
      ensures Valid()
      ensures OpenDone(old(elems), old(shape), elems, shape, root, path, flags, heap, r)
    {
      hide RamfsTree.Valid, Answers, NamesElement, NamesVacancy, IsRoot, Components, Created, InsertedShape;
      if path == "" {
        NoVacancy(elems, shape, root, path);
        return OpenFails(EISDIR);
      }
      var found := FileFind(root, path);
      FindAgrees(elems, shape, root, path, found);
      MissAgrees(elems, shape, root, path, found);
      if found.Stuck? {
        return OpenFails(found.errno);
      }
      var walk, rest := found.walk, found.rest;
      FoundIn(elems, shape, root, path, walk, rest);
      FullIsNotVacant(elems, shape, root, path);
      if elems[walk].body.Dir? && rest == "" {
        return OpenFails(EISDIR);
      }
      if rest == "" {
        if flags.creat && flags.excl {
          return OpenFails(EEXIST);
        }
        var offset := if flags.append then |elems[walk].body.content| else 0;
        elems := elems[walk := elems[walk].(refs := elems[walk].refs + 1)];
        SameLinksValid(old(elems), shape, elems);
        return Opened(walk, offset);
      }
      if !flags.creat {
        return OpenFails(ENOENT);
      }
      PlainRest(path, rest);
      if NamesVacancy(elems, shape, root, path) {
        VacancyShort(elems, shape, root, path);
      }
      if '/' in rest {
        return OpenFails(ENOENT);
      }
      if |rest| >= MAX_NAME {
        return OpenFails(ENAMETOOLONG);
      }
      if !heap {
        return OpenFails(ENOMEM);
      }
      var e := Malloc();
      CreateHere(elems, shape, root, path, walk, rest, e, 1, File([]));
      elems := elems[e := Element(rest, elems[walk].body.child, walk, 1, File([]))];
      elems := elems[walk := elems[walk].(body := Dir(e))];
      shape := InsertedShape(old(elems), shape, walk, e, rest);
      return Opened(e, 0);
    }

    /** ramfs_del. */
    method Del(e: Ptr)
      requires Valid() && IsLeaf(elems, e)
      modifies this
      ensures Valid()
      ensures if old(elems[e].parent) == NULL then elems == old(elems) && shape == old(shape)
              else elems.Keys == old(elems).Keys - {e} && OthersAlike(old(elems), elems, {e})
                   && shape.names == old(shape.names) - {old(shape).paths[e]}
    {
      if elems[e].parent == NULL {
        return;
      }
      hide RamfsTree.Valid, Chain, NoDuplicates, OthersAlike, Removable;
      var dir := elems[e].parent;
      ghost var j := Placement(elems, shape, e);
      RemoveHere(elems, shape, e, j);
      ghost var s := shape.kids[dir];
      assert (j == 0 ==> elems[dir].body.child == e) && (elems[dir].body.child == e ==> j == 0) by {
        ChainHead(elems, elems[dir].body.child, s);
        HeadIndex(s, j);
      }
      if elems[dir].body.child == e {
        elems := elems[dir := elems[dir].(body := Dir(elems[e].sabling))];
      } else {
        var t := Before(dir, e, j);
        elems := elems[t := elems[t].(sabling := elems[e].sabling)];
      }
      elems := elems - {e};
      shape := RemovedShape(shape, dir, s, j);
    }

    /** The loop of ramfs_del that looks for the entry before e. */
    method Before(dir: Ptr, e: Ptr, ghost j: nat) returns (t: Ptr)
      requires IsDir(elems, dir) && dir in shape.kids && 0 < j < |shape.kids[dir]| && shape.kids[dir][j] == e
      requires Chain(elems, elems[dir].body.child, shape.kids[dir]) && NoDuplicates(shape.kids[dir])
      ensures t in elems && t == shape.kids[dir][j - 1]
    {
      hide Chain, NoDuplicates;
      t := elems[dir].body.child;
      ghost var s := shape.kids[dir];
      ghost var k := 0;
      ChainHead(elems, t, s);
      ChainStep(elems, t, s, k, j);
      while elems[t].sabling != e
        invariant k < j && t == s[k] && t in elems && t != NULL && ChainFrom(elems, t, s, k)
        invariant elems[t].sabling == e <==> k + 1 == j
        decreases j - k
      {
        ChainStep(elems, t, s, k, j);
        t := elems[t].sabling;
        k := k + 1;
        ChainStep(elems, t, s, k, j);
      }
    }

    /** ramfs_unlink. */
    method Unlink(root: Ptr, path: Path) returns (ok: bool)
      requires Valid() && IsRoot(shape, root)
      modifies this
      ensures Valid()
      ensures UnlinkDone(old(elems), old(shape), elems, shape, root, path, ok)
    {
      var found := FileFind(root, path);
      FindAgrees(elems, shape, root, path, found);
      hide RamfsTree.Valid, Answers, Components, OthersAlike;
      if found.Stuck? || found.rest != "" {
        return false;
      }
      var e := found.walk;
      NamedAs(elems, shape, root, Components(path));
      if elems[e].refs != 0 {
        return false;
      }
      if elems[e].body.Dir? && elems[e].body.child != NULL {
        return false;
      }
      Del(e);
      return true;
    }

    /** ramfs_rename. */
    method Rename(root: Ptr, oldPath: Path, newPath: Path) returns (ok: bool)
      requires Valid() && IsRoot(shape, root)
      modifies this
      ensures Valid()
      ensures RenameDone(old(elems), old(shape), elems, shape, root, oldPath, newPath, ok)
    {
      hide RamfsTree.Valid, Answers, Components, NamesElement, NamesVacancy, IsRoot, Vacant;
      var found := FileFind(root, oldPath);
      FindAgrees(elems, shape, root, oldPath, found);
      if found.Stuck? || found.rest != "" {
        return false;
      }
      var e := found.walk;
      var place := FileFind(root, newPath);
      MissAgrees(elems, shape, root, newPath, place);
      EmptyRest("");
      if place.Stuck? || place.rest == "" {
        return false;
      }
      FoundIn(elems, shape, root, newPath, place.walk, place.rest);
      PlainRest(newPath, place.rest);
      if '/' in place.rest {
        return false;
      }
      RenameHere(elems, shape, root, oldPath, newPath, e, place.walk, place.rest);
      if place.walk != elems[e].parent {
        return false;
      }
      VacancyShort(elems, shape, root, newPath);
      if |place.rest| >= MAX_NAME {
        return false;
      }
      ghost var cs := Components(oldPath);
      elems := elems[e := elems[e].(name := place.rest)];
      shape := RenamedShape(shape, Parent((root, cs)), cs[|cs| - 1], place.rest);
      return true;
    }

    /** ramfs_mkdir. */
    method Mkdir(root: Ptr, path: Path, heap: bool) returns (ok: bool)
      requires Valid() && IsRoot(shape, root)
      modifies this
      ensures Valid()
      ensures MkdirDone(old(elems), old(shape), elems, shape, root, path, heap, ok)
    {
      hide RamfsTree.Valid, Answers, Components, NamesElement, NamesVacancy, IsRoot, Created, InsertedShape;
      var found := FileFind(root, path);
      MissAgrees(elems, shape, root, path, found);
      EmptyRest("");
      if found.Stuck? || found.rest == "" {
        return false;
      }
      var walk, rest := found.walk, found.rest;
      FoundIn(elems, shape, root, path, walk, rest);
      var t := FindSlash(rest, 0);
      var len := t;
      RestOfName(rest, t);
      if t < |rest| {
        t := SkipTo(rest, t);
        RestSkipped(rest, len, t);
        if t < |rest| {
          return false;
        }
      }
      VacancyShort(elems, shape, root, path);
      if len >= MAX_NAME {
        return false;
      }
      if !heap {
        return false;
      }
      var e := Malloc();
      CreateHere(elems, shape, root, path, walk, rest[..len], e, 0, Dir(NULL));
      elems := elems[e := Element(rest[..len], elems[walk].body.child, walk, 0, Dir(NULL))];
      elems := elems[walk := elems[walk].(body := Dir(e))];
      shape := InsertedShape(old(elems), shape, walk, e, rest[..len]);
      return true;
    }

    /** The part of ramfs_mount that makes the root. */
    method NewRoot() returns (r: Ptr)
      requires Valid()
      modifies this
      ensures Valid() && IsRoot(shape, r) && !IsRoot(old(shape), r) && r !in old(elems)
      ensures elems == WithRoot(old(elems), r) && KeepsRoots(old(shape), shape)
    {
      r := Malloc();
      RootKeepsValid(elems, shape, r);
      elems := WithRoot(elems, r);
      shape := WithRootShape(shape, r);
    }

    /** ramfs_close, and ramfs_closedir. */
    method Close(data: Ptr)
      requires Valid() && data in elems && elems[data].refs > 0
      modifies `elems
      ensures Valid()
      ensures elems == old(elems)[data := old(elems[data].(refs := elems[data].refs - 1))]
    {
      hide RamfsTree.Valid;
      elems := elems[data := elems[data].(refs := elems[data].refs - 1)];
      SameLinksValid(old(elems), shape, elems);
    }

    /** ramfs_opendir. */
    method OpenDir(root: Ptr, path: Path) returns (r: Option<Ptr>)
      requires Valid() && IsRoot(shape, root)
      modifies `elems
      ensures Valid()
      ensures r.Some? <==> NamesElement(old(elems), shape, root, path)
                           && IsDir(old(elems), shape.names[(root, Components(path))])
      ensures r.None? ==> elems == old(elems)
      ensures r.Some? ==> (root, Components(path)) in shape.names && r.value == shape.names[(root, Components(path))]
                          && r.value in old(elems)
                          && elems == old(elems)[r.value := old(elems[r.value].(refs := elems[r.value].refs + 1))]
    {
      hide RamfsTree.Valid, Answers, Components;
      var found := FileFind(root, path);
      FindAgrees(elems, shape, root, path, found);
      if found.Stuck? || found.rest != "" {
        return None;
      }
      var d := found.walk;
      NamedAs(elems, shape, root, Components(path));
      if elems[d].body.File? {
        return None;
      }
      elems := elems[d := elems[d].(refs := elems[d].refs + 1)];
      SameLinksValid(old(elems), shape, elems);
      return Some(d);
    }

    /** ramfs_readdir: the entry number offset of the directory. */
    method ReadDir(data: Ptr, offset: nat) returns (r: Option<Ptr>)
      requires Valid() && IsDir(elems, data)
      ensures data in shape.kids
      ensures r == if offset < |shape.kids[data]| then Some(shape.kids[data][offset]) else None
    {
      ghost var s := KidsOf(elems, shape, data);
      hide RamfsTree.Valid, Chain;
      var i, child := 0, elems[data].body.child;
      while i < offset && child != NULL
        invariant i <= offset && ChainFrom(elems, child, s, i)
      {
        ChainNext(elems, child, s, i);
        i, child := i + 1, elems[child].sabling;
      }
      ChainOver(elems, child, s, i);
      return if child == NULL then None else Some(child);
    }

    /** ramfs_read: the bytes, and where the file then stands. */
    method Read(data: Ptr, offset: int, bytes: nat) returns (got: seq<Byte>, at: nat)
      requires data in elems && elems[data].body.File?
      ensures var c, off := elems[data].body.content, NotNegative(offset);
              && at == off + |got|
              && |got| == (if off >= |c| then 0 else if |c| - off < bytes then |c| - off else bytes)
              && (off < |c| ==> got == c[off..at])
    {
      at := if offset < 0 then 0 else offset;
      var c := elems[data].body.content;
      if |c| <= at {
        return [], at;
      }
      var n := if |c| - at < bytes then |c| - at else bytes;
      got := c[at..at + n];
      at := at + n;
    }

    /** LOS_MemRealloc, which may fail unless memory can be had (heap), and otherwise keeps what
        was there. */
    method Realloc(c: seq<Byte>, n: nat, heap: bool) returns (r: Option<seq<Byte>>)
      requires |c| <= n
      ensures heap ==> r.Some?
      ensures r.Some? ==> |r.value| == n && r.value[..|c|] == c
    {
      var full: bool := *;
      if full && !heap {
        return None;
      }
      assert var z := c + seq(n - |c|, _ => '\0'); |z| == n && z[..|c|] == c;
      var grown: seq<Byte> :| |grown| == n && grown[..|c|] == c;
      return Some(grown);
    }

    /** ramfs_write: the count, or -1, and where the file then stands. */
    method Write(data: Ptr, offset: int, buff: seq<Byte>, heap: bool) returns (n: int, at: nat)
      requires Valid() && data in elems && elems[data].body.File? && buff != []
      modifies `elems
      ensures Valid()
      ensures var c, off := old(elems[data].body.content), NotNegative(offset);
              && data in elems && elems[data].body.File?
              && WriteDone(c, off, buff, n, elems[data].body.content)
              && at == off + (if n == -1 then 0 else n)
      ensures heap ==> n == |buff|
      ensures elems == old(elems)[data := old(elems[data]).(body := elems[data].body)]
    {
      hide RamfsTree.Valid, WriteDone, Overwrite;
      at := if offset < 0 then 0 else offset;
      var c := elems[data].body.content;
      n := |buff|;
      if at + n > |c| {
        var p := Realloc(c, at + n, heap);
        if p.Some? {
          elems := elems[data := elems[data].(body := File(p.value))];
        } else {
          if |c| <= at {
            assert elems == elems[data := elems[data]];
            NothingWritten(c, at, buff);
            return -1, at;
          }
          n := |c| - at;
        }
      }
      ghost var c1 := elems[data].body.content;
      ghost var e1 := elems;
      elems := elems[data := elems[data].(body := File(Overwrite(elems[data].body.content, at, buff[..n])))];
      Written(c, c1, at, buff, n);
      at := at + n;
      SameLinksValid(old(elems), shape, elems);
    }

    /** ramfs_lseek: the new position, or -1. */
    method Lseek(data: Ptr, offset: int, off: int, whence: Whence) returns (ret: int, at: int)
      requires data in elems && elems[data].body.File?
      ensures whence.SeekOther? ==> ret == -1 && at == offset
      ensures !whence.SeekOther? ==>
                var size := |elems[data].body.content|;
                && var want := if whence.SeekSet? then off else if whence.SeekCur? then offset + off else size;
                ret == at == if want < 0 then 0 else if want > size then size else want
    {
      at := offset;
      var size := |elems[data].body.content|;
      match whence {
        case SeekSet => at := off;
        case SeekCur => at := at + off;
        case SeekEnd => at := size;
        case SeekOther => return -1, at;
      }
      if at < 0 {
        at := 0;
      }
      if at > size {
        at := size;
      }
      ret := at;
    }
  }
}
