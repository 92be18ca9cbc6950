/**
 One directory of a file system that may fail any call and may crash after it.

 A crash leaves one of the directory states reached since the last directory
 sync: directory changes reach the disk in order, but when is up to the system.
 A file whose bytes were not synced since its last write may hold anything
 after a crash; of the modes it had since its last sync it may have any.
 */
module CrashFs {
  import opened Results

  type Bytes = seq<bv8>
  type Name = string

  /** Permission bits by number. */
  type Mode = set<nat>

  datatype Inode = Inode(bytes: Bytes, dirty: bool, mode: Mode, modes: set<Mode>)

  type Directory = map<Name, nat>

  /** `versions` ends with the directory as it is now. */
  datatype Disk = Disk(versions: seq<Directory>, inodes: seq<Inode>)

  datatype Descriptor = Descriptor(inode: Option<nat>, open: bool, closeFailed: bool)

  ghost predicate WellFormed(d: Disk) {
    && d.versions != []
    && forall v, n | v in d.versions && n in v :: v[n] < |d.inodes|
  }

  function Current(d: Disk): Directory
    requires d.versions != []
  {
    d.versions[|d.versions| - 1]
  }

  /** What a reader sees under a name now. */
  function Visible(d: Disk, name: Name): Option<Bytes>
    requires d.versions != []
  {
    if name in Current(d) && Current(d)[name] < |d.inodes| then Some(d.inodes[Current(d)[name]].bytes) else None
  }

  /** A crash may leave `name` with this content, or absent. */
  ghost predicate Recovers(d: Disk, name: Name, content: Option<Bytes>) {
    exists v | v in d.versions ::
      if name in v && v[name] < |d.inodes| then
        content.Some? && (d.inodes[v[name]].dirty || d.inodes[v[name]].bytes == content.value)
      else content == None
  }

  /** A crash may leave `name` with this mode. */
  ghost predicate RecoversMode(d: Disk, name: Name, mode: Mode) {
    exists v | v in d.versions :: name in v && v[name] < |d.inodes| && mode in d.inodes[v[name]].modes
  }

  // -------------------------------------------------- effects of the calls

  function Change(d: Disk, v: Directory): Disk {
    d.(versions := d.versions + [v])
  }

  function Created(d: Disk, name: Name, mode: Mode): Disk
    requires d.versions != []
  {
    Change(d.(inodes := d.inodes + [Inode([], true, mode, {mode})]), Current(d)[name := |d.inodes|])
  }

  function Written(d: Disk, inode: nat, data: Bytes): Disk
    requires inode < |d.inodes|
  {
    d.(inodes := d.inodes[inode := d.inodes[inode].(bytes := d.inodes[inode].bytes + data, dirty := true)])
  }

  function Synced(d: Disk, inode: nat): Disk
    requires inode < |d.inodes|
  {
    d.(inodes := d.inodes[inode := d.inodes[inode].(dirty := false, modes := {d.inodes[inode].mode})])
  }

  function Chmoded(d: Disk, name: Name, mode: Mode): Disk
    requires d.versions != [] && name in Current(d) && Current(d)[name] < |d.inodes|
  {
    var i := Current(d)[name];
    d.(inodes := d.inodes[i := d.inodes[i].(mode := mode, modes := d.inodes[i].modes + {mode})])
  }

  function Renamed(d: Disk, from: Name, to: Name): Disk
    requires d.versions != [] && from in Current(d)
  {
    Change(d, (Current(d) - {from})[to := Current(d)[from]])
  }

  function Linked(d: Disk, from: Name, to: Name): Disk
    requires d.versions != [] && from in Current(d)
  {
    Change(d, Current(d)[to := Current(d)[from]])
  }

  function Removed(d: Disk, name: Name): Disk
    requires d.versions != []
  {
    Change(d, Current(d) - {name})
  }

  function DirectorySynced(d: Disk): Disk
    requires d.versions != []
  {
    d.(versions := [Current(d)])
  }

  /** A crash may leave anything of a file written since its last sync. */
  lemma WrittenMayTear(d: Disk, name: Name, data: Bytes, torn: Bytes)
    requires WellFormed(d) && name in Current(d)
    ensures Recovers(Written(d, Current(d)[name], data), name, Some(torn))
  {
    assert Current(d) in d.versions;
  }

  /** Of a synced file in a synced directory a crash leaves its bytes, and nothing else. */
  lemma SyncedSurvives(d: Disk, name: Name, content: Option<Bytes>)
    requires WellFormed(d) && name in Current(d)
    ensures Recovers(DirectorySynced(Synced(d, Current(d)[name])), name, content) <==> content == Visible(d, name)
  {
    assert Current(d) in [Current(d)];
  }

  // ------------------------------------------------- the calls themselves

  datatype LinkOutcome = Done | Exists | Fault

  /**
   Every call may fail, and `faults` counts those that do; `trace` holds the disk after each call, the points at
   which a crash may strike.
   */
  class FileSystem {
    const umask: Mode
    var disk: Disk
    var fds: seq<Descriptor>
    /** Names whose latest removal failed. */
    var unremoved: set<Name>
    ghost var trace: seq<Disk>
    /** How many calls have failed. */
    ghost var faults: nat

    ghost predicate Valid()
      reads this
    {
      WellFormed(disk)
      && forall f | 0 <= f < |fds| && fds[f].inode.Some? :: fds[f].inode.value < |disk.inodes|
    }

    constructor (disk: Disk, umask: Mode)
      requires WellFormed(disk)
      ensures Valid() && this.disk == disk && this.umask == umask && fds == [] && trace == [disk] && unremoved == {}
                && faults == 0
    {
      this.umask := umask;
      this.disk := disk;
      fds, trace, unremoved, faults := [], [disk], {}, 0;
    }

    /** `mkdir` of the directory itself, which may be there already. */
    method MakeDirectory() returns (ok: bool)
      requires Valid()
      modifies this`trace, this`faults
      ensures Valid() && trace == old(trace) + [disk]
      ensures faults == old(faults) + if ok then 0 else 1
    {
      ok := *;
      trace := trace + [disk];
      faults := faults + if ok then 0 else 1;
    }

    /** `open(name, "wx", mode)` */
    method CreateExclusive(name: Name, mode: Mode) returns (fd: Option<nat>)
      requires Valid()
      modifies this
      ensures Valid() && trace == old(trace) + [disk] && unremoved == old(unremoved)
      ensures fd == None ==> disk == old(disk) && fds == old(fds)
      ensures fd.Some? ==>
                && name !in Current(old(disk)) && disk == Created(old(disk), name, mode - umask)
                && fd == Some(|old(fds)|) && fds == old(fds) + [Descriptor(Some(|old(disk.inodes)|), true, false)]
      ensures faults == old(faults) + if fd.Some? then 0 else 1
    {
      var works: bool := *;
      if !works || name in Current(disk) {
        trace, faults := trace + [disk], faults + 1;
        return None;
      }
      fd := Some(|fds|);
      fds := fds + [Descriptor(Some(|disk.inodes|), true, false)];
      disk := Created(disk, name, mode - umask);
      trace := trace + [disk];
    }

    /** Appends `data`, or on failure some part of it. */
    method Write(fd: nat, data: Bytes) returns (ok: bool)
      requires Valid() && fd < |fds| && fds[fd].open && fds[fd].inode.Some?
      modifies this`disk, this`trace, this`faults
      ensures Valid() && trace == old(trace) + [disk]
      ensures ok ==> disk == Written(old(disk), fds[fd].inode.value, data)
      ensures !ok ==> exists n | 0 <= n <= |data| :: disk == Written(old(disk), fds[fd].inode.value, data[..n])
      ensures faults == old(faults) + if ok then 0 else 1
    {
      ok := *;
      var n :| 0 <= n <= |data|;
      disk := Written(disk, fds[fd].inode.value, if ok then data else data[..n]);
      trace := trace + [disk];
      faults := faults + if ok then 0 else 1;
    }

    method Fsync(fd: nat) returns (ok: bool)
      requires Valid() && fd < |fds| && fds[fd].open && fds[fd].inode.Some?
      modifies this`disk, this`trace, this`faults
      ensures Valid() && trace == old(trace) + [disk]
      ensures disk == if ok then Synced(old(disk), fds[fd].inode.value) else old(disk)
      ensures faults == old(faults) + if ok then 0 else 1
    {
      ok := *;
      if ok {
        disk := Synced(disk, fds[fd].inode.value);
      }
      trace := trace + [disk];
      faults := faults + if ok then 0 else 1;
    }

    method CloseFd(fd: nat) returns (ok: bool)
      requires Valid() && fd < |fds| && fds[fd].open
      modifies this`fds, this`trace, this`faults
      ensures Valid() && trace == old(trace) + [disk]
      ensures fds == old(fds)[fd := old(fds)[fd].(open := !ok, closeFailed := !ok)]
      ensures faults == old(faults) + if ok then 0 else 1
    {
      ok := *;
      fds := fds[fd := fds[fd].(open := !ok, closeFailed := !ok)];
      trace := trace + [disk];
      faults := faults + if ok then 0 else 1;
    }

    method Rename(from: Name, to: Name) returns (ok: bool)
      requires Valid()
      modifies this`disk, this`trace, this`faults
      ensures Valid() && trace == old(trace) + [disk]
      ensures ok ==> from in Current(old(disk)) && disk == Renamed(old(disk), from, to)
      ensures !ok ==> disk == old(disk)
      ensures faults == old(faults) + if ok then 0 else 1
    {
      ok := *;
      ok := ok && from in Current(disk);
      if ok {
        disk := Renamed(disk, from, to);
      }
      trace := trace + [disk];
      faults := faults + if ok then 0 else 1;
    }

    method Chmod(name: Name, mode: Mode) returns (ok: bool)
      requires Valid()
      modifies this`disk, this`trace, this`faults
      ensures Valid() && trace == old(trace) + [disk]
      ensures ok ==> name in Current(old(disk)) && disk == Chmoded(old(disk), name, mode)
      ensures !ok ==> disk == old(disk)
      ensures faults == old(faults) + if ok then 0 else 1
    {
      ok := *;
      ok := ok && name in Current(disk);
      if ok {
        disk := Chmoded(disk, name, mode);
      }
      trace := trace + [disk];
      faults := faults + if ok then 0 else 1;
    }

    method OpenDirectory() returns (fd: Option<nat>)
      requires Valid()
      modifies this`fds, this`trace, this`faults
      ensures Valid() && trace == old(trace) + [disk]
      ensures fd == None ==> fds == old(fds)
      ensures fd.Some? ==> fd == Some(|old(fds)|) && fds == old(fds) + [Descriptor(None, true, false)]
      ensures faults == old(faults) + if fd.Some? then 0 else 1
    {
      var works: bool := *;
      trace := trace + [disk];
      if !works {
        faults := faults + 1;
        return None;
      }
      fd := Some(|fds|);
      fds := fds + [Descriptor(None, true, false)];
    }

    method FsyncDirectory(fd: nat) returns (ok: bool)
      requires Valid() && fd < |fds| && fds[fd].open && fds[fd].inode == None
      modifies this`disk, this`trace, this`faults
      ensures Valid() && trace == old(trace) + [disk]
      ensures disk == if ok then DirectorySynced(old(disk)) else old(disk)
      ensures faults == old(faults) + if ok then 0 else 1
    {
      ok := *;
      if ok {
        disk := DirectorySynced(disk);
      }
      trace := trace + [disk];
      faults := faults + if ok then 0 else 1;
    }

    method Link(from: Name, to: Name) returns (outcome: LinkOutcome)
      requires Valid()
      modifies this`disk, this`trace, this`faults
      ensures Valid() && trace == old(trace) + [disk]
      ensures outcome == Done ==>
                from in Current(old(disk)) && to !in Current(old(disk)) && disk == Linked(old(disk), from, to)
      ensures outcome != Done ==> disk == old(disk)
      ensures outcome == Exists ==> to in Current(disk)
      ensures faults == old(faults) + if outcome != Fault then 0 else 1
    {
      var works: bool := *;
      if !works || from !in Current(disk) {
        outcome := Fault;
      } else if to in Current(disk) {
        outcome := Exists;
      } else {
        outcome := Done;
        disk := Linked(disk, from, to);
      }
      trace := trace + [disk];
      faults := faults + if outcome == Fault then 1 else 0;
    }

    /** `unlink`; a missing name is a failure. */
    method Unlink(name: Name) returns (ok: bool)
      requires Valid()
      modifies this`disk, this`trace, this`unremoved, this`faults
      ensures Valid() && trace == old(trace) + [disk]
      ensures ok ==> name in Current(old(disk)) && disk == Removed(old(disk), name)
      ensures ok ==> unremoved == old(unremoved) - {name}
      ensures !ok ==> disk == old(disk) && unremoved == old(unremoved) + {name}
      ensures faults == old(faults) + if ok then 0 else 1
    {
      ok := *;
      ok := ok && name in Current(disk);
      if ok {
        disk := Removed(disk, name);
        unremoved := unremoved - {name};
      } else {
        unremoved := unremoved + {name};
      }
      trace := trace + [disk];
      faults := faults + if ok then 0 else 1;
    }

    /** `rm` with `force`: a missing name is no failure. */
    method Remove(name: Name) returns (ok: bool)
      requires Valid()
      modifies this`disk, this`trace, this`unremoved, this`faults
      ensures Valid() && trace == old(trace) + [disk]
      ensures ok ==> unremoved == old(unremoved) - {name}
                     && disk == if name in Current(old(disk)) then Removed(old(disk), name) else old(disk)
      ensures !ok ==> disk == old(disk) && unremoved == old(unremoved) + {name}
      ensures faults == old(faults) + if ok then 0 else 1
    {
      ok := *;
      if ok {
        if name in Current(disk) {
          disk := Removed(disk, name);
        }
        unremoved := unremoved - {name};
      } else {
        unremoved := unremoved + {name};
      }
      trace := trace + [disk];
      faults := faults + if ok then 0 else 1;
    }

    /** The bytes under a name, or the failure to read them. */
    method Read(name: Name) returns (content: Option<Bytes>)
      requires Valid()
      modifies this`trace, this`faults
      ensures Valid() && trace == old(trace) + [disk]
      ensures content.Some? ==> content == Visible(disk, name)
      ensures faults == old(faults) + if content.Some? then 0 else 1
    {
      var works: bool := *;
      trace := trace + [disk];
      content := if works then Visible(disk, name) else None;
      faults := faults + if content.Some? then 0 else 1;
    }

    /** `open(name, "r+")` */
    method OpenExisting(name: Name) returns (fd: Option<nat>)
      requires Valid()
      modifies this`fds, this`trace, this`faults
      ensures Valid() && trace == old(trace) + [disk]
      ensures fd == None ==> fds == old(fds)
      ensures fd.Some? ==>
                name in Current(disk) && fd == Some(|old(fds)|)
                && fds == old(fds) + [Descriptor(Some(Current(disk)[name]), true, false)]
      ensures faults == old(faults) + if fd.Some? then 0 else 1
    {
      var works: bool := *;
      trace := trace + [disk];
      if !works || name !in Current(disk) {
        faults := faults + 1;
        return None;
      }
      fd := Some(|fds|);
      fds := fds + [Descriptor(Some(Current(disk)[name]), true, false)];
    }

    /** The file's identity and size. */
    method Stat(name: Name) returns (info: Option<(nat, nat)>)
      requires Valid()
      modifies this`trace, this`faults
      ensures Valid() && trace == old(trace) + [disk]
      ensures info.Some? ==>
                name in Current(disk)
                && info == Some((Current(disk)[name], |disk.inodes[Current(disk)[name]].bytes|))
      ensures faults == old(faults) + if info.Some? then 0 else 1
    {
      var works: bool := *;
      trace := trace + [disk];
      if !works || name !in Current(disk) {
        faults := faults + 1;
        return None;
      }
      return Some((Current(disk)[name], |disk.inodes[Current(disk)[name]].bytes|));
    }
  }
}
