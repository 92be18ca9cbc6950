/** Model of writeFileAtomicSync: durably replace one file, whichever call fails or is the last before a crash. */
module AtomicFile {
  import opened Results
  import opened CrashFs

  /**
   Whatever a crash on `d`, or a reader of it, finds under any name but the
   temporary one was already to be found on `d0`, or is the complete new
   content under the target.
   */
  ghost predicate OldOrNew(d0: Disk, d: Disk, temp: Name, target: Name, data: Bytes) {
    && d0.versions != [] && d.versions != []
    && (forall n, c | n != temp && Recovers(d, n, c) :: Recovers(d0, n, c) || (n == target && c == Some(data)))
    && (forall n | n != temp :: Visible(d, n) == Visible(d0, n) || (n == target && Visible(d, n) == Some(data)))
  }

  // -------------------------------------------------- the working shape

  ghost predicate SameEntry(v: Directory, v0: Directory, n: Name) {
    (n in v <==> n in v0) && (n in v ==> v[n] == v0[n])
  }

  /** The new inode holds the complete new content, safely on disk. */
  predicate Complete(d: Disk, inode: nat, data: Bytes) {
    inode < |d.inodes| && !d.inodes[inode].dirty && d.inodes[inode].bytes == data
  }

  /** Directory `v` differs from `v0` at most in `temp` and, once published, in `target`'s new inode. */
  ghost predicate Derived(v: Directory, v0: Directory, temp: Name, target: Name, inode: nat, published: bool) {
    forall n | n != temp :: SameEntry(v, v0, n) || (published && n == target && n in v && v[n] == inode)
  }

  /** The old inodes are untouched, and every directory state is an old one or derived from the last of them. */
  ghost predicate Shape(d0: Disk, d: Disk, temp: Name, target: Name, data: Bytes, published: bool) {
    && WellFormed(d0) && WellFormed(d)
    && |d.inodes| <= |d0.inodes| + 1 && d0.inodes <= d.inodes
    && (published ==> Complete(d, |d0.inodes|, data))
    && (forall v | v in d.versions ::
          v in d0.versions || Derived(v, Current(d0), temp, target, |d0.inodes|, published))
    && Derived(Current(d), Current(d0), temp, target, |d0.inodes|, published)
  }

  lemma ShapeIsOldOrNew(d0: Disk, d: Disk, temp: Name, target: Name, data: Bytes, published: bool)
    requires Shape(d0, d, temp, target, data, published)
    ensures OldOrNew(d0, d, temp, target, data)
  {
    assert Current(d0) in d0.versions;
    forall n, c | n != temp && Recovers(d, n, c) ensures Recovers(d0, n, c) || (n == target && c == Some(data)) {
      var v :| v in d.versions &&
        if n in v && v[n] < |d.inodes| then
          c.Some? && (d.inodes[v[n]].dirty || d.inodes[v[n]].bytes == c.value)
        else c == None;
      if !(published && n == target && n in v && v[n] == |d0.inodes|) {
        var v0 := if v in d0.versions then v else Current(d0);
        assert SameEntry(v, v0, n);
        assert n in v ==> d.inodes[v[n]] == d0.inodes[v0[n]];
      }
    }
  }

  lemma ChangePreserves(d0: Disk, d: Disk, v: Directory, temp: Name, target: Name, data: Bytes, published: bool)
    requires Shape(d0, d, temp, target, data, published)
    requires forall n | n in v :: v[n] < |d.inodes|
    requires Derived(v, Current(d0), temp, target, |d0.inodes|, published)
    ensures Shape(d0, Change(d, v), temp, target, data, published)
    ensures Current(Change(d, v)) == v
  {
  }

  lemma CreationPreserves(d0: Disk, temp: Name, target: Name, data: Bytes, mode: Mode)
    requires WellFormed(d0)
    ensures Shape(d0, d0, temp, target, data, false)
    ensures Shape(d0, Created(d0, temp, mode), temp, target, data, false)
  {
    assert Current(d0) in d0.versions;
    var d := d0.(inodes := d0.inodes + [Inode([], true, mode, {mode})]);
    ChangePreserves(d0, d, Current(d0)[temp := |d0.inodes|], temp, target, data, false);
  }

  /** Before publication the new inode may change in any way. */
  lemma InodePreserves(d0: Disk, d: Disk, temp: Name, target: Name, data: Bytes, inode: Inode)
    requires Shape(d0, d, temp, target, data, false) && |d.inodes| == |d0.inodes| + 1
    ensures Shape(d0, d.(inodes := d.inodes[|d0.inodes| := inode]), temp, target, data, false)
  {
  }

  /** Renaming a complete file over the target publishes it. */
  lemma RenamePublishes(d0: Disk, d: Disk, temp: Name, target: Name, data: Bytes)
    requires Shape(d0, d, temp, target, data, false) && temp != target
    requires Complete(d, |d0.inodes|, data)
    requires temp in Current(d) && Current(d)[temp] == |d0.inodes|
    ensures var d' := Renamed(d, temp, target);
            && Shape(d0, d', temp, target, data, true)
            && target in Current(d') && Current(d')[target] == |d0.inodes| && temp !in Current(d')
  {
    assert forall v | v in d.versions && v !in d0.versions ::
      Derived(v, Current(d0), temp, target, |d0.inodes|, true);
    assert Current(d) in d.versions;
    ChangePreserves(d0, d, (Current(d) - {temp})[target := |d0.inodes|], temp, target, data, true);
  }

  lemma RemovePreserves(d0: Disk, d: Disk, temp: Name, target: Name, data: Bytes, published: bool)
    requires Shape(d0, d, temp, target, data, published)
    ensures Shape(d0, Removed(d, temp), temp, target, data, published)
  {
    assert Current(d) in d.versions;
    ChangePreserves(d0, d, Current(d) - {temp}, temp, target, data, published);
  }

  lemma ChmodPreserves(d0: Disk, d: Disk, temp: Name, target: Name, data: Bytes, mode: Mode)
    requires Shape(d0, d, temp, target, data, true)
    requires target in Current(d) && Current(d)[target] == |d0.inodes|
    ensures Shape(d0, Chmoded(d, target, mode), temp, target, data, true)
  {
  }

  lemma DirectorySyncPreserves(d0: Disk, d: Disk, temp: Name, target: Name, data: Bytes, published: bool)
    requires Shape(d0, d, temp, target, data, published)
    ensures Shape(d0, DirectorySynced(d), temp, target, data, published)
  {
    assert Current(d) in d.versions;
  }

  // ------------------------------------------------------------- outcome

  /** What a normal return leaves: the target is the new inode, its file synced before it was renamed. */
  ghost predicate Published(d0: Disk, d: Disk, target: Name, data: Bytes, mode: Mode, umask: Mode, windows: bool) {
    && d.versions != []
    && Complete(d, |d0.inodes|, data)
    && target in Current(d) && Current(d)[target] == |d0.inodes|
    && d.inodes[|d0.inodes|].mode == mode
    && d.inodes[|d0.inodes|].modes == {mode - umask, mode}
    && (!windows ==> d.versions == [Current(d)])
  }

  /** The new content is there to read, and off Windows no crash can take it back. */
  lemma PublishedIsDurable(
      d0: Disk, d: Disk, target: Name, data: Bytes, mode: Mode, umask: Mode, windows: bool, content: Option<Bytes>)
    requires Published(d0, d, target, data, mode, umask, windows)
    ensures Visible(d, target) == Some(data)
    ensures !windows ==> (Recovers(d, target, content) <==> content == Some(data))
  {
    assert Current(d) in d.versions;
  }

  /**
   The mode is set after the file's last sync, and syncing the directory does
   not sync the file: off Windows the requested mode survives every crash
   exactly when creating the file under the umask already gave it.
   */
  lemma ModeDurableExactly(d0: Disk, d: Disk, target: Name, data: Bytes, mode: Mode, umask: Mode)
    requires Published(d0, d, target, data, mode, umask, false)
    ensures (forall m | RecoversMode(d, target, m) :: m == mode) <==> mode * umask == {}
  {
    assert Current(d) in d.versions;
    assert RecoversMode(d, target, mode - umask) && RecoversMode(d, target, mode);
    assert mode - umask == mode <==> mode * umask == {} by {
      assert forall b | b in mode * umask :: b in mode && b !in mode - umask;
      assert mode * umask == {} ==> forall b | b in mode :: b !in umask by {
        assert forall b | b in mode && b in umask :: b in mode * umask;
      }
    }
    assert forall m | RecoversMode(d, target, m) :: m == mode - umask || m == mode;
  }

  /** Under a umask that strips a requested bit a crash may lose it, though the call returned. */
  lemma StrippedModeMayBeLost() returns (d0: Disk, d: Disk, mode: Mode, umask: Mode)
    ensures Published(d0, d, "shim", [], mode, umask, false)
    ensures exists m :: RecoversMode(d, "shim", m) && m != mode
  {
    mode, umask := {8, 7, 6, 5, 3, 2, 0}, {5, 4, 3, 2, 1, 0};
    d0 := Disk([map[]], []);
    d := Disk([map["shim" := 0]], [Inode([], false, mode, {mode - umask, mode})]);
    assert 0 in mode && 0 !in mode - umask;
    assert Current(d) in d.versions;
    assert RecoversMode(d, "shim", mode - umask);
  }

  // -------------------------------------------------------------- method

  ghost predicate TraceSafe(trace: seq<Disk>, from: nat, d0: Disk, temp: Name, target: Name, data: Bytes) {
    forall k | from <= k < |trace| :: OldOrNew(d0, trace[k], temp, target, data)
  }

  /** Descriptors from `from` on are closed, or their last close failed, except those named. */
  ghost predicate NoneLeft(fds: seq<Descriptor>, from: nat, fileFd: Option<nat>, dirFd: Option<nat>) {
    forall f | from <= f < |fds| && fds[f].open && fileFd != Some(f) && dirFd != Some(f) :: fds[f].closeFailed
  }

  ghost predicate FdsHeld(fs: FileSystem, from: nat, fileFd: Option<nat>, dirFd: Option<nat>)
    reads fs
  {
    && from <= |fs.fds|
    && NoneLeft(fs.fds, from, fileFd, dirFd)
    && (fileFd.Some? ==> from <= fileFd.value < |fs.fds| && fs.fds[fileFd.value].open)
    && (dirFd.Some? ==> from <= dirFd.value < |fs.fds| && fs.fds[dirFd.value].open && dirFd != fileFd)
  }

  /** Write and sync the new file, the only one since `d0`. */
  method WriteAndSync(fs: FileSystem, ghost d0: Disk, fd: nat, temp: Name, target: Name, data: Bytes) returns (ok: bool)
    requires fs.Valid() && Shape(d0, fs.disk, temp, target, data, false)
    requires |fs.disk.inodes| == |d0.inodes| + 1 && fs.disk.inodes[|d0.inodes|].bytes == []
    requires fd < |fs.fds| && fs.fds[fd].open && fs.fds[fd].inode == Some(|d0.inodes|)
    modifies fs`disk, fs`trace, fs`faults
    ensures fs.Valid() && Shape(d0, fs.disk, temp, target, data, false)
    ensures old(fs.trace) <= fs.trace && TraceSafe(fs.trace, |old(fs.trace)|, d0, temp, target, data)
    ensures fs.disk.versions == old(fs.disk.versions)
    ensures ok ==>
              Complete(fs.disk, |d0.inodes|, data)
              && fs.disk.inodes[|d0.inodes|].mode == old(fs.disk.inodes[|d0.inodes|].mode)
              && fs.disk.inodes[|d0.inodes|].modes == {fs.disk.inodes[|d0.inodes|].mode}
    ensures old(fs.faults) <= fs.faults && (ok <==> fs.faults == old(fs.faults))
  {
    ghost var n, d1 := |d0.inodes|, fs.disk;
    ok := fs.Write(fd, data);
    InodePreserves(d0, d1, temp, target, data, fs.disk.inodes[n]);
    assert fs.disk == d1.(inodes := d1.inodes[n := fs.disk.inodes[n]]);
    ShapeIsOldOrNew(d0, fs.disk, temp, target, data, false);
    if !ok {
      return;
    }
    assert fs.disk.inodes[n].bytes == data;
    ghost var d2 := fs.disk;
    ok := fs.Fsync(fd);
    InodePreserves(d0, d2, temp, target, data, fs.disk.inodes[n]);
    assert fs.disk == d2.(inodes := d2.inodes[n := fs.disk.inodes[n]]);
    ShapeIsOldOrNew(d0, fs.disk, temp, target, data, false);
  }

  /** The body of the try block up to the rename. */
  method WriteTemporary(fs: FileSystem, temp: Name, target: Name, data: Bytes, mode: Mode)
    returns (ok: bool, fileFd: Option<nat>)
    requires fs.Valid() && temp != target
    modifies fs
    ensures fs.Valid() && fs.unremoved == old(fs.unremoved)
    ensures old(fs.trace) <= fs.trace && TraceSafe(fs.trace, |old(fs.trace)|, old(fs.disk), temp, target, data)
    ensures Shape(old(fs.disk), fs.disk, temp, target, data, false)
    ensures old(fs.fds) <= fs.fds && FdsHeld(fs, |old(fs.fds)|, fileFd, None)
    ensures ok ==>
              fileFd == None
              && Complete(fs.disk, |old(fs.disk.inodes)|, data)
              && temp in Current(fs.disk) && Current(fs.disk)[temp] == |old(fs.disk.inodes)|
              && fs.disk.inodes[|old(fs.disk.inodes)|].mode == mode - fs.umask
              && fs.disk.inodes[|old(fs.disk.inodes)|].modes == {mode - fs.umask}
    ensures old(fs.faults) <= fs.faults && (ok <==> fs.faults == old(fs.faults))
  {
    ghost var d0 := fs.disk;
    CreationPreserves(d0, temp, target, data, mode - fs.umask);
    ShapeIsOldOrNew(d0, d0, temp, target, data, false);
    fileFd := fs.CreateExclusive(temp, mode);
    ShapeIsOldOrNew(d0, fs.disk, temp, target, data, false);
    if fileFd == None {
      return false, None;
    }
    ok := WriteAndSync(fs, d0, fileFd.value, temp, target, data);
    if !ok {
      return;
    }
    ok := fs.CloseFd(fileFd.value);
    if ok {
      fileFd := None;
    }
  }

  /** Publish the complete file and set its mode. */
  method RenameAndChmod(fs: FileSystem, ghost d0: Disk, temp: Name, target: Name, data: Bytes, mode: Mode)
    returns (ok: bool, ghost published: bool)
    requires fs.Valid() && temp != target
    requires Shape(d0, fs.disk, temp, target, data, false) && Complete(fs.disk, |d0.inodes|, data)
    requires temp in Current(fs.disk) && Current(fs.disk)[temp] == |d0.inodes|
    requires fs.disk.inodes[|d0.inodes|].mode == mode - fs.umask
    requires fs.disk.inodes[|d0.inodes|].modes == {mode - fs.umask}
    modifies fs`disk, fs`trace, fs`faults
    ensures fs.Valid()
    ensures old(fs.trace) <= fs.trace && TraceSafe(fs.trace, |old(fs.trace)|, d0, temp, target, data)
    ensures Shape(d0, fs.disk, temp, target, data, published)
    ensures ok ==> published && Published(d0, fs.disk, target, data, mode, fs.umask, true) && temp !in Current(fs.disk)
    ensures old(fs.faults) <= fs.faults && (ok <==> fs.faults == old(fs.faults))
  {
    RenamePublishes(d0, fs.disk, temp, target, data);
    ShapeIsOldOrNew(d0, fs.disk, temp, target, data, false);
    ok := fs.Rename(temp, target);
    published := ok;
    if !ok {
      return;
    }
    ShapeIsOldOrNew(d0, fs.disk, temp, target, data, true);
    ChmodPreserves(d0, fs.disk, temp, target, data, mode);
    ok := fs.Chmod(target, mode);
    ShapeIsOldOrNew(d0, fs.disk, temp, target, data, true);
  }

  /** Sync the directory entry. */
  method SyncDirectory(fs: FileSystem, ghost d0: Disk, temp: Name, target: Name, data: Bytes, mode: Mode)
    returns (ok: bool, dirFd: Option<nat>)
    requires fs.Valid() && Shape(d0, fs.disk, temp, target, data, true)
    requires Published(d0, fs.disk, target, data, mode, fs.umask, true) && temp !in Current(fs.disk)
    modifies fs`disk, fs`trace, fs`fds, fs`faults
    ensures fs.Valid()
    ensures old(fs.trace) <= fs.trace && TraceSafe(fs.trace, |old(fs.trace)|, d0, temp, target, data)
    ensures Shape(d0, fs.disk, temp, target, data, true)
    ensures old(fs.fds) <= fs.fds && FdsHeld(fs, |old(fs.fds)|, None, dirFd)
    ensures ok ==> dirFd == None && Published(d0, fs.disk, target, data, mode, fs.umask, false)
    ensures temp !in Current(fs.disk)
    ensures old(fs.faults) <= fs.faults && (ok <==> fs.faults == old(fs.faults))
  {
    DirectorySyncPreserves(d0, fs.disk, temp, target, data, true);
    ShapeIsOldOrNew(d0, fs.disk, temp, target, data, true);
    dirFd := fs.OpenDirectory();
    if dirFd == None {
      return false, None;
    }
    ok := fs.FsyncDirectory(dirFd.value);
    ShapeIsOldOrNew(d0, fs.disk, temp, target, data, true);
    if ok {
      ok := fs.CloseFd(dirFd.value);
      if ok {
        dirFd := None;
      }
    }
  }

  /** The catch block. */
  method CleanUp(fs: FileSystem, ghost d0: Disk, temp: Name, target: Name, data: Bytes, ghost published: bool,
                 fileFd: Option<nat>, dirFd: Option<nat>, ghost from: nat)
    requires fs.Valid() && Shape(d0, fs.disk, temp, target, data, published)
    requires FdsHeld(fs, from, fileFd, dirFd)
    modifies fs
    ensures fs.Valid()
    ensures old(fs.trace) <= fs.trace && TraceSafe(fs.trace, |old(fs.trace)|, d0, temp, target, data)
    ensures |fs.fds| == |old(fs.fds)| && fs.fds[..from] == old(fs.fds)[..from] && NoneLeft(fs.fds, from, None, None)
    ensures Shape(d0, fs.disk, temp, target, data, published)
    ensures temp in Current(fs.disk) ==> temp in fs.unremoved
    ensures old(fs.faults) <= fs.faults
  {
    ShapeIsOldOrNew(d0, fs.disk, temp, target, data, published);
    if fileFd.Some? {
      var _ := fs.CloseFd(fileFd.value);
    }
    if dirFd.Some? {
      var _ := fs.CloseFd(dirFd.value);
    }
    RemovePreserves(d0, fs.disk, temp, target, data, published);
    var _ := fs.Remove(temp);
    ShapeIsOldOrNew(d0, fs.disk, temp, target, data, published);
  }

  /** The try block. */
  method Replace(fs: FileSystem, temp: Name, target: Name, data: Bytes, mode: Mode, windows: bool)
    returns (ok: bool, ghost published: bool, fileFd: Option<nat>, dirFd: Option<nat>)
    requires fs.Valid() && temp != target
    modifies fs
    ensures fs.Valid() && fs.unremoved == old(fs.unremoved)
    ensures old(fs.trace) <= fs.trace && TraceSafe(fs.trace, |old(fs.trace)|, old(fs.disk), temp, target, data)
    ensures Shape(old(fs.disk), fs.disk, temp, target, data, published)
    ensures |old(fs.fds)| <= |fs.fds| && fs.fds[..|old(fs.fds)|] == old(fs.fds)
    ensures FdsHeld(fs, |old(fs.fds)|, fileFd, dirFd)
    ensures ok ==> fileFd == None && dirFd == None && temp !in Current(fs.disk)
    ensures ok ==> Published(old(fs.disk), fs.disk, target, data, mode, fs.umask, windows)
    ensures old(fs.faults) <= fs.faults && (ok <==> fs.faults == old(fs.faults))
  {
    ghost var d0 := fs.disk;
    published, dirFd := false, None;
    ok, fileFd := WriteTemporary(fs, temp, target, data, mode);
    if ok {
      ok, published := RenameAndChmod(fs, d0, temp, target, data, mode);
    }
    if ok && !windows {
      ok, dirFd := SyncDirectory(fs, d0, temp, target, data, mode);
    }
  }

  /**
   Replace `target` with `data`.  At every point a crash or a reader finds the
   old file or the complete new one; a normal return means the new one is in
   place and durable, and means that no call failed; no descriptor stays open
   unless closing it failed.
   */
  method WriteFileAtomic(fs: FileSystem, temp: Name, target: Name, data: Bytes, mode: Mode, windows: bool)
    returns (ok: bool)
    requires fs.Valid() && temp != target
    modifies fs
    ensures fs.Valid()
    ensures old(fs.trace) <= fs.trace && TraceSafe(fs.trace, |old(fs.trace)|, old(fs.disk), temp, target, data)
    ensures OldOrNew(old(fs.disk), fs.disk, temp, target, data)
    ensures exists published :: Shape(old(fs.disk), fs.disk, temp, target, data, published)
    ensures ok ==> Published(old(fs.disk), fs.disk, target, data, mode, fs.umask, windows)
    ensures |old(fs.fds)| <= |fs.fds| && fs.fds[..|old(fs.fds)|] == old(fs.fds)
    ensures NoneLeft(fs.fds, |old(fs.fds)|, None, None)
    ensures temp in Current(fs.disk) ==> temp in Current(old(fs.disk)) || temp in fs.unremoved
    ensures old(fs.faults) <= fs.faults && (ok <==> fs.faults == old(fs.faults))
  {
    ghost var d0, from := fs.disk, |fs.fds|;
    CreationPreserves(d0, temp, target, data, mode);
    ShapeIsOldOrNew(d0, d0, temp, target, data, false);
    var madeDirectory := fs.MakeDirectory();
    if !madeDirectory {
      return false;
    }
    ghost var published;
    var fileFd, dirFd;
    ok, published, fileFd, dirFd := Replace(fs, temp, target, data, mode, windows);
    if !ok {
      CleanUp(fs, d0, temp, target, data, published, fileFd, dirFd, from);
    }
    ShapeIsOldOrNew(d0, fs.disk, temp, target, data, published);
  }
}
