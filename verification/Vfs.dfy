/** The calls of the virtual file system, one at a time, over the RAM file system. */
module Vfs {
  import opened Basics
  import opened VfsPaths
  import opened VfsMount
  import opened RamfsTree
  import opened RamfsEdit
  import opened RamfsSpec
  import opened Ramfs
  import opened VfsRefs

  /** LOS_FS_MAX_NAME_LEN */
  const MAX_FS_NAME: nat := 16

  predicate FsNameChar(ch: char) {
    'a' <= ch <= 'z' || 'A' <= ch <= 'Z' || '0' <= ch <= '9' || ch == '_' || ch == '-'
  }

  predicate GoodFsName(name: string) {
    0 < |name| < MAX_FS_NAME && forall k | 0 <= k < |name| :: FsNameChar(name[k])
  }

  class Vfs {
    const ramfs: Ramfs
    var files: seq<File>
    var dirs: map<Ptr, OpenDir>
    var order: seq<Ptr>
    var mps: map<Ptr, MountPoint>
    var fss: map<string, nat>
    ghost var data: map<Handle, Ptr>
    ghost var at: map<Handle, Ptr>

    ghost predicate Valid()
      reads this, ramfs
    {
      && ramfs.Valid()
      && Handles(files, dirs, data, at)
      && ElementRefs(ramfs.elems, data) && Positions(ramfs.elems, files, dirs)
      && MountRefs(mps, at) && FsRefs(fss, mps) && Mounts(ramfs.shape, order, mps)
    }

    constructor ()
      ensures Valid() && fresh(ramfs) && files == seq(MAX_FILES, _ => NotUsed)
              && mps == map[] && fss == map[] && dirs == map[]
    {
      ramfs := new Ramfs();
      files := seq(MAX_FILES, _ => NotUsed);
      dirs, order, mps, fss := map[], [], map[], map[];
      data, at := map[], map[];
    }

    // ---- looking things up ----

    method Find(path: Path) returns (r: Option<(Ptr, Path)>)
      requires Valid()
      ensures Located(mps, path, r)
      ensures r.Some? ==> r.value.0 in mps && IsRoot(ramfs.shape, mps[r.value.0].root)
    {
      hide RamfsTree.Valid, Handles, ElementRefs, Positions, MountRefs, FsRefs, Longest, Distinct,
           Candidate, LeftOf, PathsOf;
      var found := MpFind(PathsOf(order, mps), path);
      LongestLocates(ramfs.shape, order, mps, path, found);
      r := if found.None? then None else Some((order[found.value.0], found.value.1));
    }

    /** los_file_get: the first unused entry, or MAX_FILES. */
    method FileGet() returns (i: nat)
      requires |files| == MAX_FILES
      ensures i <= MAX_FILES && (forall j | 0 <= j < i :: files[j].Ready?) && (i < MAX_FILES ==> files[i].NotUsed?)
    {
      i := 0;
      while i < MAX_FILES && files[i].Ready?
        invariant i <= MAX_FILES && forall j | 0 <= j < i :: files[j].Ready?
      {
        i := i + 1;
      }
    }

    // ---- file systems and mount points ----

    /** los_fs_name_check: 1 to 15 letters, digits, underscores and hyphens. */
    method FsNameCheck(name: string) returns (ok: bool)
      ensures ok <==> GoodFsName(name)
      ensures ok <==> 1 <= |name| <= 15 && forall k | 0 <= k < |name| ::
                        var c := name[k] as int;
                        || 0x61 <= c <= 0x7A || 0x41 <= c <= 0x5A || 0x30 <= c <= 0x39 || c == 0x5F || c == 0x2D
    {
      var len := 0;
      while len < |name|
        invariant 0 <= len <= |name| && len < MAX_FS_NAME
        invariant forall k | 0 <= k < len :: FsNameChar(name[k])
      {
        var ch := name[len];
        if !FsNameChar(ch) {
          return false;
        }
        len := len + 1;
        if len == MAX_FS_NAME {
          return false;
        }
      }
      return len != 0;
    }

    /** los_fs_register. */
    method Register(name: string) returns (ok: bool)
      requires Valid()
      modifies `fss
      ensures Valid()
      ensures ok <==> GoodFsName(name) && name !in old(fss)
      ensures fss == if ok then old(fss)[name := 0] else old(fss)
    {
      hide RamfsTree.Valid, Handles, ElementRefs, Positions, MountRefs, Mounts, Uses, FsOf;
      var good := FsNameCheck(name);
      if !good || name in fss {
        return false;
      }
      FsUnused(mps, fss, name);
      fss := fss[name := 0];
      return true;
    }

    /** los_fs_unregister: a file system that is mounted stays, although the call succeeds. */
    method Unregister(name: string) returns (ok: bool)
      requires Valid()
      modifies `fss
      ensures Valid()
      ensures ok <==> name in old(fss)
      ensures fss == if ok && old(fss[name]) == 0 then old(fss) - {name} else old(fss)
      ensures forall m | m in mps :: mps[m].fs in fss
    {
      hide RamfsTree.Valid, Handles, ElementRefs, Positions, MountRefs, Mounts, Uses, FsOf;
      if name !in fss {
        return false;
      }
      if fss[name] > 0 {
        return true;
      }
      FsUnused(mps, fss, name);
      fss := fss - {name};
      return true;
    }

    /** los_fs_mount: refused where a mount point with the same names is. */
    method Mount(fsname: string, path: Path, root: Ptr, heap: bool) returns (ok: bool)
      requires Valid() && IsRoot(ramfs.shape, root)
      modifies `mps, `order, `fss
      ensures Valid()
      ensures ok <==> path != "" && path[0] == '/' && fsname in old(fss) && heap
                      && !old(IsMounted(mps, path))
      ensures !ok ==> mps == old(mps) && order == old(order) && fss == old(fss)
      ensures ok ==> order != [] && order[1..] == old(order) && order[0] !in old(mps)
                     && mps == old(mps)[order[0] := MountPoint(fsname, path, 0, root)]
                     && fss == old(fss[fsname := fss[fsname] + 1])
    {
      hide RamfsTree.Valid, Handles, ElementRefs, Positions, MountRefs, FsRefs, Mounts, Uses, IsMounted;
      if path == "" || path[0] != '/' {
        return false;
      }
      if fsname !in fss {
        return false;
      }
      var found := Find(path);
      WholeIsMounted(mps, path, found);
      if found.Some? && found.value.1 == "" {
        return false;
      }
      if !heap {
        return false;
      }
      FreshExists(mps.Keys);
      var m: Ptr :| m != NULL && m !in mps;
      var mp := MountPoint(fsname, path, 0, root);
      NotMounted(mps, path);
      MountAdded(ramfs.shape, order, mps, m, mp);
      FsAdded(mps, fss, m, mp);
      NewMountRefs(mps, at, m, mp);
      mps := mps[m := mp];
      order := [m] + order;
      fss := fss[fsname := fss[fsname] + 1];
      return true;
    }

    /** los_fs_unmount: nothing is open on a mount point that goes. */
    method Unmount(path: Path) returns (ok: bool, ghost where: Option<(Ptr, Path)>)
      requires Valid()
      modifies `mps, `order, `fss
      ensures Valid() && Located(old(mps), path, where)
      ensures ok <==> where.Some? && where.value.1 == "" && old(mps)[where.value.0].refs == 0
      ensures !ok ==> mps == old(mps) && order == old(order) && fss == old(fss)
      ensures ok ==> var m := where.value.0;
                     && mps == old(mps) - {m} && m in old(order)
                     && (forall h | h in at :: at[h] != m)
                     && old(mps)[m].fs in old(fss) && old(fss)[old(mps)[m].fs] > 0
                     && fss == old(fss)[old(mps)[m].fs := old(fss)[old(mps)[m].fs] - 1]
    {
      hide RamfsTree.Valid, Handles, ElementRefs, Positions, MountRefs, FsRefs, Uses, Distinct,
           PathsOf, Located, IsRoot;
      var found := Find(path);
      where := found;
      if found.None? || found.value.1 != "" || mps[found.value.0].refs != 0 {
        return false, where;
      }
      var m := found.value.0;
      var j := 0;
      while order[j] != m
        invariant j < |order| && forall k | 0 <= k < j :: order[k] != m
        decreases |order| - j
      {
        j := j + 1;
      }
      MountRemoved(ramfs.shape, order, mps, j);
      FsRemoved(mps, fss, m);
      GoneMountRefs(mps, at, m);
      hide Mounts;
      fss := fss[mps[m].fs := fss[mps[m].fs] - 1];
      order := order[..j] + order[j + 1..];
      mps := mps - {m};
      return true, where;
    }

    // ---- files ----

    /** los_open. */
    method Open(path: Path, flags: Flags, heap: bool)
      returns (fd: int, ghost where: Option<(Ptr, Path)>, ghost r: Opened)
      requires Valid() && path != ""
      modifies `files, `mps, `data, `at, ramfs
      ensures Valid()
      ensures fd == -1 || 0 <= fd < 8
      ensures fd >= 0 ==> && old(files[fd]).NotUsed? && (forall j | 0 <= j < fd :: old(files[j]).Ready?)
                          && Located(old(mps), path, where) && where.Some? && where.value.1 != "" && r.Opened?
                          && where.value.0 in old(mps)
                          && var m := where.value.0;
                          && OpenDone(old(ramfs.elems), old(ramfs.shape), ramfs.elems, ramfs.shape,
                                      old(mps)[m].root, where.value.1, flags, heap, r)
                          && files == old(files)[fd := Ready(flags, m, r.data, r.offset)]
                          && mps == old(mps)[m := old(mps)[m].(refs := old(mps)[m].refs + 1)]
      ensures fd == -1 ==> files == old(files) && mps == old(mps)
                           && ramfs.elems == old(ramfs.elems) && ramfs.shape == old(ramfs.shape)
      ensures fd == -1 ==> || EndsInSlash(path) || (|files| == 8 && forall j | 0 <= j < 8 :: files[j].Ready?)
                           || (Located(mps, path, where) &&
                               (where.None? || where.value.1 == "" ||
                                (r.OpenFails? && where.value.0 in mps &&
                                 OpenDone(ramfs.elems, ramfs.shape, ramfs.elems, ramfs.shape,
                                          mps[where.value.0].root, where.value.1, flags, heap, r))))
    {
      hide RamfsTree.Valid, Handles, ElementRefs, Positions, MountRefs, FsRefs, Mounts, Uses, IsRoot, OpenDone, Located;
      where, r := None, OpenFails(Unset);
      if EndsInSlash(path) {
        return -1, where, r;
      }
      assert |files| == MAX_FILES by { TableSize(files, dirs, data, at); }
      var i := FileGet();
      if i == MAX_FILES {
        return -1, where, r;
      }
      var found := Find(path);
      where := found;
      if found.None? || found.value.1 == "" {
        return -1, where, r;
      }
      var (m, rest) := found.value;
      var got := ramfs.Open(mps[m].root, rest, flags, heap);
      r := got;
      if got.OpenFails? {
        OpenFailsUnchanged(old(ramfs.elems), old(ramfs.shape), ramfs.elems, ramfs.shape,
                         mps[m].root, rest, flags, heap, r);
        return -1, where, r;
      }
      var f := Ready(flags, m, got.data, got.offset);
      HandleOpened(files, dirs, data, at, i, f);
      OpenCounts(old(ramfs.elems), old(ramfs.shape), ramfs.elems, ramfs.shape,
                 mps[m].root, rest, flags, heap, r, data, Fd(i));
      OpenGrows(old(ramfs.elems), old(ramfs.shape), ramfs.elems, ramfs.shape, mps[m].root, rest, flags, heap, r);
      PositionOpened(old(ramfs.elems), ramfs.elems, files, dirs, i, f);
      MountCountOne(mps, at, Fd(i), m);
      var nps := mps[m := mps[m].(refs := mps[m].refs + 1)];
      MountsKept(old(ramfs.shape), ramfs.shape, order, mps, nps, fss);
      files := files[i := f];
      mps := nps;
      data, at := data[Fd(i) := got.data], at[Fd(i) := m];
      return i, where, r;
    }

    /** los_close. */
    method CloseFile(fd: int) returns (ret: int)
      requires Valid()
      modifies `files, `mps, `data, `at, ramfs`elems
      ensures Valid()
      ensures ret == (if 0 <= fd < MAX_FILES && old(files)[fd].Ready? then 0 else -1)
      ensures ret == -1 ==> files == old(files) && mps == old(mps) && ramfs.elems == old(ramfs.elems)
      ensures ret == 0 ==> var f := old(files)[fd];
                && files == old(files)[fd := NotUsed]
                && f.data in old(ramfs.elems) && old(ramfs.elems)[f.data].refs > 0
                && ramfs.elems
                     == old(ramfs.elems)[f.data := old(ramfs.elems)[f.data].(refs := old(ramfs.elems)[f.data].refs - 1)]
                && f.mp in old(mps) && old(mps)[f.mp].refs > 0
                && mps == old(mps)[f.mp := old(mps)[f.mp].(refs := old(mps)[f.mp].refs - 1)]
    {
      hide RamfsTree.Valid, Handles, ElementRefs, Positions, MountRefs, FsRefs, Mounts, Uses;
      TableSize(files, dirs, data, at);
      if fd < 0 || fd >= MAX_FILES {
        return -1;
      }
      if files[fd].NotUsed? {
        return -1;
      }
      var f := files[fd];
      HandleClosed(files, dirs, data, at, fd);
      CountDown(ramfs.elems, data, Fd(fd));
      MountCountDown(mps, at, Fd(fd));
      ramfs.Close(f.data);
      RefsGrow(old(ramfs.elems), f.data, old(ramfs.elems)[f.data].refs - 1);
      PositionsGrow(old(ramfs.elems), ramfs.elems, files, dirs);
      PositionClosed(ramfs.elems, files, dirs, fd);
      var nps := mps[f.mp := mps[f.mp].(refs := mps[f.mp].refs - 1)];
      MountsKept(ramfs.shape, ramfs.shape, order, mps, nps, fss);
      mps := nps;
      files := files[fd := NotUsed];
      data, at := data - {Fd(fd)}, at - {Fd(fd)};
      return 0;
    }

    /** los_read: the bytes from the handle's position on, as many as there are. */
    method Read(fd: int, bytes: nat) returns (n: int, got: seq<Byte>)
      requires Valid()
      modifies `files
      ensures Valid()
      ensures n == -1 <==> bytes == 0 || !IsOpen(old(files), fd) || old(files)[fd].flags.access.WriteOnly?
      ensures n == -1 ==> files == old(files)
      ensures n != -1 ==>
                var f := old(files)[fd];
                && f.data in ramfs.elems && ramfs.elems[f.data].body.File?
                && var c := ramfs.elems[f.data].body.content;
                && 0 <= f.offset <= |c| && n == |got| == (if |c| - f.offset < bytes then |c| - f.offset else bytes)
                && got == c[f.offset..f.offset + n]
                && files == old(files)[fd := f.(offset := f.offset + n)]
    {
      hide RamfsTree.Valid, Handles, ElementRefs, MountRefs, FsRefs, Mounts;
      TableSize(files, dirs, data, at);
      if bytes == 0 || fd < 0 || fd >= MAX_FILES || files[fd].NotUsed? {
        return -1, [];
      }
      var f := files[fd];
      if f.flags.access.WriteOnly? {
        return -1, [];
      }
      var bs, to := ramfs.Read(f.data, f.offset, bytes);
      HandleMoved(files, dirs, data, at, fd, to);
      files := files[fd := f.(offset := to)];
      return |bs|, bs;
    }

    /** los_write: the bytes of the file with those of buff written over them from the handle's
        position on; if the file cannot grow, with as many of them as fit. */
    method Write(fd: int, buff: seq<Byte>, heap: bool) returns (n: int)
      requires Valid()
      modifies `files, ramfs`elems
      ensures Valid()
      ensures buff == [] || !IsOpen(old(files), fd) || old(files)[fd].flags.access.ReadOnly? ==> n == -1
      ensures heap && buff != [] && IsOpen(old(files), fd) && !old(files)[fd].flags.access.ReadOnly? ==> n == |buff|
      ensures n == -1 ==> files == old(files) && ramfs.elems == old(ramfs.elems)
      ensures n == -1 && buff != [] && IsOpen(files, fd) && !files[fd].flags.access.ReadOnly? ==>
                var f := files[fd];
                f.data in ramfs.elems && ramfs.elems[f.data].body.File?
                && f.offset == |ramfs.elems[f.data].body.content|
      ensures n != -1 ==>
                && IsOpen(old(files), fd)
                && var f := old(files)[fd];
                && f.data in old(ramfs.elems) && old(ramfs.elems)[f.data].body.File?
                && var c := old(ramfs.elems)[f.data].body.content;
                && 0 <= f.offset <= |c| && 0 < n <= |buff| && (n < |buff| ==> f.offset + n == |c|)
                && ramfs.elems == old(ramfs.elems)[f.data :=
                     old(ramfs.elems)[f.data].(body := File(Overwrite(c, f.offset, buff[..n])))]
                && files == old(files)[fd := f.(offset := f.offset + n)]
    {
      hide RamfsTree.Valid, Handles, ElementRefs, Positions, MountRefs, FsRefs, Mounts, Overwrite;
      TableSize(files, dirs, data, at);
      if buff == [] || fd < 0 || fd >= MAX_FILES || files[fd].NotUsed? {
        return -1;
      }
      var f := files[fd];
      if f.flags.access.ReadOnly? {
        return -1;
      }
      PositionOf(ramfs.elems, files, dirs, fd);
      ghost var c := ramfs.elems[f.data].body.content;
      var count, to := ramfs.Write(f.data, f.offset, buff, heap);
      WriteAtEnd(c, f.offset, buff, count, ramfs.elems[f.data].body.content);
      WriteCounts(old(ramfs.elems), f.data, ramfs.elems[f.data].body, data);
      WritePositions(old(ramfs.elems), files, dirs, fd, ramfs.elems[f.data].body, to);
      HandleMoved(files, dirs, data, at, fd, to);
      files := files[fd := f.(offset := to)];
      return count;
    }

    /** los_lseek: the handle's position, kept within the file. */
    method Lseek(fd: int, off: int, whence: Whence) returns (ret: int)
      requires Valid()
      modifies `files
      ensures Valid()
      ensures ret == -1 <==> !IsOpen(old(files), fd) || whence.SeekOther?
      ensures ret == -1 ==> files == old(files)
      ensures ret != -1 ==>
                var f := old(files)[fd];
                && f.data in ramfs.elems && ramfs.elems[f.data].body.File?
                && var size := |ramfs.elems[f.data].body.content|;
                && var want := if whence.SeekSet? then off else if whence.SeekCur? then f.offset + off else size;
                && ret == (if want < 0 then 0 else if want > size then size else want)
                && files == old(files)[fd := f.(offset := ret)]
    {
      hide RamfsTree.Valid, Handles, ElementRefs, MountRefs, FsRefs, Mounts;
      TableSize(files, dirs, data, at);
      if fd < 0 || fd >= MAX_FILES || files[fd].NotUsed? {
        return -1;
      }
      var f := files[fd];
      var to;
      ret, to := ramfs.Lseek(f.data, f.offset, off, whence);
      HandleMoved(files, dirs, data, at, fd, to);
      files := files[fd := f.(offset := to)];
    }

    /** What is written is read back: a write, the way back over what it wrote, and a read of as
        many bytes, on a handle open for both; all bytes of the file around them are as they
        were. */
    method WriteAndReadBack(fd: int, buff: seq<Byte>) returns (got: seq<Byte>)
      requires Valid() && buff != [] && IsOpen(files, fd) && files[fd].flags.access.ReadWrite?
      modifies `files, ramfs`elems
      ensures Valid() && got == buff && files == old(files)[fd := files[fd]] && IsOpen(files, fd)
      ensures var f := old(files)[fd];
              && f.data in old(ramfs.elems) && old(ramfs.elems)[f.data].body.File?
              && f.data in ramfs.elems && ramfs.elems[f.data].body.File? && f.offset >= 0
              && var c, d := old(ramfs.elems)[f.data].body.content, ramfs.elems[f.data].body.content;
              forall i | 0 <= i < |c| && (i < f.offset || i >= f.offset + |buff|) :: i < |d| && d[i] == c[i]
      ensures forall e | e in old(ramfs.elems) && e != old(files)[fd].data ::
                e in ramfs.elems && ramfs.elems[e] == old(ramfs.elems)[e]
    {
      hide RamfsTree.Valid, Handles, ElementRefs, Positions, MountRefs, FsRefs, Mounts, Overwrite;
      ghost var f := files[fd];
      var n := Write(fd, buff, true);
      assert buff[..n] == buff;
      OverwriteFound(old(ramfs.elems)[f.data].body.content, f.offset, buff);
      var back := Lseek(fd, -n, SeekCur);
      var m;
      m, got := Read(fd, n);
    }

    // ---- names ----

    /** los_unlink. */
    method Unlink(path: Path) returns (ok: bool, ghost where: Option<(Ptr, Path)>)
      requires Valid()
      modifies ramfs
      ensures Valid() && Located(mps, path, where)
      ensures where.Some? ==> where.value.0 in mps
      ensures if where.None? || where.value.1 == "" then !ok
                   && ramfs.elems == old(ramfs.elems) && ramfs.shape == old(ramfs.shape)
              else UnlinkDone(old(ramfs.elems), old(ramfs.shape), ramfs.elems, ramfs.shape,
                              mps[where.value.0].root, where.value.1, ok)
      ensures forall h | h in data :: data[h] in ramfs.elems
    {
      hide RamfsTree.Valid, Handles, Positions, MountRefs, FsRefs, Mounts, Uses, UnlinkDone, Located, IsRoot;
      var found := Find(path);
      where := found;
      if found.None? || found.value.1 == "" {
        return false, where;
      }
      var root := mps[found.value.0].root;
      ok := ramfs.Unlink(root, found.value.1);
      UnlinkKeeps(old(ramfs.elems), old(ramfs.shape), ramfs.elems, ramfs.shape,
                  root, found.value.1, ok, files, dirs, data, at);
      MountsKept(old(ramfs.shape), ramfs.shape, order, mps, mps, fss);
    }

    /** los_rename, within one mount point. */
    method Rename(oldPath: Path, newPath: Path)
      returns (ok: bool, ghost from: Option<(Ptr, Path)>, ghost to: Option<(Ptr, Path)>)
      requires Valid()
      modifies ramfs
      ensures Valid() && Located(mps, oldPath, from) && Located(mps, newPath, to)
      ensures from.Some? ==> from.value.0 in mps
      ensures if from.None? || from.value.1 == "" || to.None? || to.value.1 == "" || from.value.0 != to.value.0
              then !ok && ramfs.elems == old(ramfs.elems) && ramfs.shape == old(ramfs.shape)
              else RenameDone(old(ramfs.elems), old(ramfs.shape), ramfs.elems, ramfs.shape,
                              mps[from.value.0].root, from.value.1, to.value.1, ok)
    {
      hide RamfsTree.Valid, Handles, ElementRefs, Positions, MountRefs, FsRefs, Mounts, Uses,
           RenameDone, Located, IsRoot;
      var source := Find(oldPath);
      var target := Find(newPath);
      from, to := source, target;
      if source.None? || source.value.1 == "" {
        return false, from, to;
      }
      if target.None? || target.value.1 == "" {
        return false, from, to;
      }
      if source.value.0 != target.value.0 {
        return false, from, to;
      }
      var root := mps[source.value.0].root;
      ok := ramfs.Rename(root, source.value.1, target.value.1);
      RenameKeeps(old(ramfs.elems), old(ramfs.shape), ramfs.elems, ramfs.shape,
                  root, source.value.1, target.value.1, ok,
                  files, dirs, data);
      MountsKept(old(ramfs.shape), ramfs.shape, order, mps, mps, fss);
    }

    /** los_mkdir. */
    method Mkdir(path: Path, heap: bool) returns (ok: bool, ghost where: Option<(Ptr, Path)>)
      requires Valid()
      modifies ramfs
      ensures Valid() && Located(mps, path, where)
      ensures where.Some? ==> where.value.0 in mps
      ensures if where.None? || where.value.1 == "" then !ok
                   && ramfs.elems == old(ramfs.elems) && ramfs.shape == old(ramfs.shape)
              else MkdirDone(old(ramfs.elems), old(ramfs.shape), ramfs.elems, ramfs.shape,
                             mps[where.value.0].root, where.value.1, heap, ok)
    {
      hide RamfsTree.Valid, Handles, ElementRefs, Positions, MountRefs, FsRefs, Mounts, Uses,
           MkdirDone, Located, IsRoot;
      var found := Find(path);
      where := found;
      if found.None? || found.value.1 == "" {
        return false, where;
      }
      var root := mps[found.value.0].root;
      ok := ramfs.Mkdir(root, found.value.1, heap);
      MkdirKeeps(old(ramfs.elems), old(ramfs.shape), ramfs.elems, ramfs.shape,
                 root, found.value.1, heap, ok, files, dirs, data);
      MountsKept(old(ramfs.shape), ramfs.shape, order, mps, mps, fss);
    }

    // ---- directories ----

    /** los_opendir. */
    method OpenDirectory(path: Path, heap: bool) returns (p: Ptr, ghost where: Option<(Ptr, Path)>)
      requires Valid()
      modifies `dirs, `mps, `data, `at, ramfs`elems
      ensures Valid()
      ensures p == NULL ==> dirs == old(dirs) && mps == old(mps) && ramfs.elems == old(ramfs.elems)
      ensures heap ==> Located(old(mps), path, where)
      ensures p != NULL <==> heap && OpensDir(old(ramfs.elems), ramfs.shape, old(mps), where)
      ensures p != NULL ==>
                && where.Some? && where.value.0 in old(mps) && p !in old(dirs)
                && var m := where.value.0;
                && var key := (old(mps)[m].root, Components(where.value.1));
                && key in ramfs.shape.names && ramfs.shape.names[key] in old(ramfs.elems)
                && var e := ramfs.shape.names[key];
                && dirs == old(dirs)[p := OpenDir(m, e, 0)]
                && mps == old(mps)[m := old(mps)[m].(refs := old(mps)[m].refs + 1)]
                && ramfs.elems == old(ramfs.elems)[e := old(ramfs.elems)[e].(refs := old(ramfs.elems)[e].refs + 1)]
    {
      hide RamfsTree.Valid, Handles, ElementRefs, Positions, MountRefs, FsRefs, Mounts, Uses, Located, IsRoot,
           Components, NamesElement;
      where := None;
      if !heap {
        return NULL, where;
      }
      var found := Find(path);
      where := found;
      if found.None? {
        return NULL, where;
      }
      var (m, rest) := found.value;
      var got := ramfs.OpenDir(mps[m].root, rest);
      if got.None? {
        return NULL, where;
      }
      var e := got.value;
      FreshExists(dirs.Keys);
      p :| p != NULL && p !in dirs;
      var d := OpenDir(m, e, 0);
      DirOpened(files, dirs, data, at, p, d);
      CountOne(old(ramfs.elems), data, DirAt(p), e);
      RefsGrow(old(ramfs.elems), e, old(ramfs.elems)[e].refs + 1);
      PositionsGrow(old(ramfs.elems), ramfs.elems, files, dirs);
      PositionDir(ramfs.elems, files, dirs, p, d);
      MountCountOne(mps, at, DirAt(p), m);
      var nps := mps[m := mps[m].(refs := mps[m].refs + 1)];
      MountsKept(ramfs.shape, ramfs.shape, order, mps, nps, fss);
      dirs := dirs[p := d];
      mps := nps;
      data, at := data[DirAt(p) := e], at[DirAt(p) := m];
    }

    /** los_readdir: the entry the directory stands at, one entry further at every call. */
    method ReadDirectory(p: Ptr) returns (r: Option<Ptr>)
      requires Valid() && p in dirs
      modifies `dirs
      ensures Valid()
      ensures var d := old(dirs)[p];
              && d.data in ramfs.shape.kids
              && var s := ramfs.shape.kids[d.data];
              && r == (if d.offset < |s| then Some(s[d.offset]) else None)
              && dirs == if r.Some? then old(dirs)[p := d.(offset := d.offset + 1)] else old(dirs)
    {
      hide RamfsTree.Valid, ElementRefs, MountRefs, FsRefs, Mounts;
      var d := dirs[p];
      r := ramfs.ReadDir(d.data, d.offset);
      if r.Some? {
        dirs := dirs[p := d.(offset := d.offset + 1)];
      }
    }

    /** los_closedir. */
    method CloseDirectory(p: Ptr) returns (ret: int)
      requires Valid() && (p == NULL || p in dirs)
      modifies `dirs, `mps, `data, `at, ramfs`elems
      ensures Valid()
      ensures ret == if p == NULL then -1 else 0
      ensures ret == -1 ==> dirs == old(dirs) && mps == old(mps) && ramfs.elems == old(ramfs.elems)
      ensures ret == 0 ==> var d := old(dirs)[p];
                && dirs == old(dirs) - {p}
                && d.data in old(ramfs.elems) && old(ramfs.elems)[d.data].refs > 0
                && ramfs.elems
                     == old(ramfs.elems)[d.data := old(ramfs.elems)[d.data].(refs := old(ramfs.elems)[d.data].refs - 1)]
                && d.mp in old(mps) && old(mps)[d.mp].refs > 0
                && mps == old(mps)[d.mp := old(mps)[d.mp].(refs := old(mps)[d.mp].refs - 1)]
    {
      hide RamfsTree.Valid, Handles, ElementRefs, Positions, MountRefs, FsRefs, Mounts, Uses;
      if p == NULL {
        return -1;
      }
      var d := dirs[p];
      DirClosed(files, dirs, data, at, p);
      CountDown(ramfs.elems, data, DirAt(p));
      MountCountDown(mps, at, DirAt(p));
      ramfs.Close(d.data);
      RefsGrow(old(ramfs.elems), d.data, old(ramfs.elems)[d.data].refs - 1);
      PositionsGrow(old(ramfs.elems), ramfs.elems, files, dirs);
      PositionNoDir(ramfs.elems, files, dirs, p);
      var nps := mps[d.mp := mps[d.mp].(refs := mps[d.mp].refs - 1)];
      MountsKept(ramfs.shape, ramfs.shape, order, mps, nps, fss);
      mps := nps;
      dirs := dirs - {p};
      data, at := data - {DirAt(p)}, at - {DirAt(p)};
      return 0;
    }
  }
}
