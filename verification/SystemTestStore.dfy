/**
 Model of the system-test evidence store: artifacts are written, loaded, and
 completed trajectories archived by compressing them and then retiring the raw
 file.  The codecs are parameters: `gzip`, `gunzip` (none where the input is
 not a gzip stream), `print` and `parse` for JSON text, and `digest`.
 */
module SystemTestStore {
  import opened Results
  import opened CrashFs
  import AtomicFile

  // --------------------------------------------------------------- names

  predicate EndsWith(s: string, suffix: string) {
    |suffix| <= |s| && s[|s| - |suffix|..] == suffix
  }

  predicate IsAlphanumeric(c: char) {
    'A' <= c <= 'Z' || 'a' <= c <= 'z' || '0' <= c <= '9'
  }

  /** `[A-Za-z0-9][A-Za-z0-9_.-]*` */
  predicate ValidName(name: string) {
    && name != "" && IsAlphanumeric(name[0])
    && forall c | c in name :: IsAlphanumeric(c) || c == '_' || c == '.' || c == '-'
  }

  /** A letter or digit, then any of these, underscores, dots and dashes. */
  lemma ValidNameExactly(name: string)
    ensures ValidName(name) <==>
            exists first, rest :: name == [first] + rest && IsAlphanumeric(first)
                                  && forall c | c in rest && !IsAlphanumeric(c) :: c in "_.-"
  {
    if ValidName(name) {
      assert name == [name[0]] + name[1..];
    }
  }

  predicate IsLineBreak(c: char) {
    c == '\n' || c == '\r' || c == '\U{2028}' || c == '\U{2029}'
  }

  /** `trajectory-.+-full` */
  predicate IsTrajectoryBase(s: string) {
    && |s| >= 17 && s[..11] == "trajectory-" && EndsWith(s, "-full")
    && forall c | c in s[11..|s| - 5] :: !IsLineBreak(c)
  }

  function RawFile(name: string): Name {
    if EndsWith(name, ".json") then name else name + ".json"
  }

  /** A trajectory's raw file name, as the archival lists it. */
  predicate IsRaw(name: Name) {
    EndsWith(name, ".json") && IsTrajectoryBase(name[..|name| - 5])
  }

  /** `trajectory-.+-full(\.json)?` */
  predicate IsTrajectory(name: string) {
    IsTrajectoryBase(name) || IsRaw(name)
  }

  function Gz(raw: Name): Name {
    raw + ".gz"
  }

  predicate IsTemp(name: Name) {
    EndsWith(name, ".tmp")
  }

  lemma TrajectoryRawFile(name: string)
    requires IsTrajectory(name)
    ensures IsRaw(RawFile(name))
  {
    if !EndsWith(name, ".json") {
      assert (name + ".json")[..|name|] == name;
    }
  }

  lemma RawFileTrajectory(name: string)
    requires IsRaw(RawFile(name))
    ensures IsTrajectory(name)
  {
    if !EndsWith(name, ".json") {
      assert (name + ".json")[..|name|] == name;
    }
  }

  // ------------------------------------------------------------ contents

  type Contents = map<Name, Bytes>

  datatype Loaded<J> = Absent | Unreadable | Value(value: J)

  function Parsed<J>(bytes: Option<Bytes>, parse: Bytes -> Option<J>): Loaded<J> {
    if bytes == None then Unreadable
    else if parse(bytes.value) == None then Unreadable
    else Value(parse(bytes.value).value)
  }

  /** `loadSystemTestArtifact`: the compressed file, where there is one, comes first. */
  function Load<J>(c: Contents, name: string, gunzip: Bytes -> Option<Bytes>, parse: Bytes -> Option<J>): Loaded<J>
    requires ValidName(name)
  {
    var file := RawFile(name);
    if IsTrajectory(name) && Gz(file) in c then Parsed(gunzip(c[Gz(file)]), parse)
    else if file !in c then Absent
    else Parsed(Some(c[file]), parse)
  }

  /** The file `writeSystemTestArtifact` replaces, and its new bytes. */
  function WriteTarget(name: string): Name
    requires ValidName(name)
  {
    if IsTrajectory(name) then Gz(RawFile(name)) else RawFile(name)
  }

  function WriteBytes<J>(name: string, value: J, gzip: Bytes -> Bytes, print_: J -> Bytes): Bytes
    requires ValidName(name)
  {
    if IsTrajectory(name) then gzip(print_(value)) else print_(value)
  }

  /** What was written is what is loaded, also under the artifact's other spelling. */
  lemma LoadAfterWrite<J(!new)>(
      c: Contents, name: string, alias: string, value: J,
      gzip: Bytes -> Bytes, gunzip: Bytes -> Option<Bytes>, print_: J -> Bytes, parse: Bytes -> Option<J>)
    requires ValidName(name) && ValidName(alias) && RawFile(alias) == RawFile(name)
    requires forall b :: gunzip(gzip(b)) == Some(b)
    requires forall j :: parse(print_(j)) == Some(j)
    ensures Load(c[WriteTarget(name) := WriteBytes(name, value, gzip, print_)], alias, gunzip, parse) == Value(value)
  {
    if IsTrajectory(name) {
      TrajectoryRawFile(name);
      RawFileTrajectory(alias);
    } else if IsTrajectory(alias) {
      TrajectoryRawFile(alias);
      RawFileTrajectory(name);
    }
  }

  function LastChar(s: string): char
    requires s != ""
  {
    s[|s| - 1]
  }

  lemma LastChars(raw: Name, name: string)
    ensures LastChar(Gz(raw)) == 'z'
    ensures LastChar(RawFile(name)) == 'n'
    ensures IsTemp(name) ==> name != "" && LastChar(name) == 'p'
    ensures IsRaw(name) ==> LastChar(name) == 'n'
  {
    assert LastChar(".json") == 'n' && LastChar(".gz") == 'z' && LastChar(".tmp") == 'p';
    if IsTemp(name) {
      assert name[|name| - 4..][3] == ".tmp"[3];
    }
    if EndsWith(name, ".json") {
      assert name[|name| - 5..][4] == ".json"[4];
    }
  }

  /** Writing one artifact leaves every other artifact's result as it was. */
  lemma WriteLeavesOthers<J>(
      c: Contents, name: string, other: string, bytes: Bytes, gunzip: Bytes -> Option<Bytes>, parse: Bytes -> Option<J>)
    requires ValidName(name) && ValidName(other) && RawFile(other) != RawFile(name)
    ensures Load(c[WriteTarget(name) := bytes], other, gunzip, parse) == Load(c, other, gunzip, parse)
  {
    LastChars(RawFile(name), other);
    LastChars(RawFile(other), name);
    assert Gz(RawFile(name))[..|RawFile(name)|] == RawFile(name);
    assert Gz(RawFile(other))[..|RawFile(other)|] == RawFile(other);
  }

  function ContentsOf(d: Disk): Contents
    requires d.versions != []
  {
    map n | n in Current(d) && Current(d)[n] < |d.inodes| :: d.inodes[Current(d)[n]].bytes
  }

  /** A compressed file beside the raw one is synced. */
  ghost predicate TwinSynced(d: Disk, r: Name)
    requires d.versions != []
  {
    var v, g := Current(d), Gz(r);
    r in v && g in v ==> v[g] < |d.inodes| && !d.inodes[v[g]].dirty
  }

  /** No raw file has an unsynced compressed file beside it. */
  ghost predicate TwinsSynced(d: Disk) {
    WellFormed(d) && forall r | IsRaw(r) :: TwinSynced(d, r)
  }

  /** The atomic write publishes synced files only, so the store never gets an unsynced compressed file. */
  lemma WritingKeepsTwinsSynced(d0: Disk, d: Disk, temp: Name, target: Name, data: Bytes)
    requires IsTemp(temp) && exists published :: AtomicFile.Shape(d0, d, temp, target, data, published)
    requires !IsRaw(target)
    ensures TwinsSynced(d0) ==> TwinsSynced(d)
  {
    var published :| AtomicFile.Shape(d0, d, temp, target, data, published);
    forall r | IsRaw(r) && TwinsSynced(d0) ensures TwinSynced(d, r) {
      LastChars(r, temp);
      LastChars(r, r);
      assert TwinSynced(d0, r);
      assert Current(d0) in d0.versions && Current(d) in d.versions;
      assert temp != r && temp != Gz(r);
    }
  }

  lemma PublishedLoads<J(!new)>(
      d0: Disk, d: Disk, name: string, value: J, umask: Mode, windows: bool,
      gzip: Bytes -> Bytes, gunzip: Bytes -> Option<Bytes>, print_: J -> Bytes, parse: Bytes -> Option<J>)
    requires ValidName(name)
    requires AtomicFile.Published(d0, d, WriteTarget(name), WriteBytes(name, value, gzip, print_), {8, 7}, umask,
               windows)
    requires forall b :: gunzip(gzip(b)) == Some(b)
    requires forall j :: parse(print_(j)) == Some(j)
    ensures forall alias | ValidName(alias) && RawFile(alias) == RawFile(name) ::
              Load(ContentsOf(d), alias, gunzip, parse) == Value(value)
  {
    var target, bytes := WriteTarget(name), WriteBytes(name, value, gzip, print_);
    AtomicFile.PublishedIsDurable(d0, d, target, bytes, {8, 7}, umask, windows, None);
    forall alias | ValidName(alias) && RawFile(alias) == RawFile(name)
      ensures Load(ContentsOf(d), alias, gunzip, parse) == Value(value)
    {
      LoadAfterWrite(ContentsOf(d), name, alias, value, gzip, gunzip, print_, parse);
      assert ContentsOf(d)[target := bytes] == ContentsOf(d);
    }
  }

  /** `writeSystemTestArtifact`, through the atomic file replacement. */
  method WriteArtifact<J(!new)>(
      fs: FileSystem, name: string, value: J, unique: string, windows: bool,
      gzip: Bytes -> Bytes, ghost gunzip: Bytes -> Option<Bytes>, print_: J -> Bytes, ghost parse: Bytes -> Option<J>)
    returns (ok: bool)
    requires fs.Valid()
    requires forall b :: gunzip(gzip(b)) == Some(b)
    requires forall j :: parse(print_(j)) == Some(j)
    modifies fs
    ensures fs.Valid() && old(fs.trace) <= fs.trace
    ensures !ValidName(name) ==> !ok && fs.disk == old(fs.disk)
    ensures ok ==> forall alias | ValidName(alias) && RawFile(alias) == RawFile(name) ::
                     Load(ContentsOf(fs.disk), alias, gunzip, parse) == Value(value)
    ensures ValidName(name) ==>
              AtomicFile.TraceSafe(fs.trace, |old(fs.trace)|, old(fs.disk), TempFor(WriteTarget(name), unique),
                                   WriteTarget(name), WriteBytes(name, value, gzip, print_))
    ensures ok <==> ValidName(name) && fs.faults == old(fs.faults)
    ensures TwinsSynced(old(fs.disk)) ==> TwinsSynced(fs.disk)
  {
    if !ValidName(name) {
      return false;
    }
    var target, bytes := WriteTarget(name), WriteBytes(name, value, gzip, print_);
    assert TempFor(target, unique)[0] == '.' && target[0] == name[0];
    LastChars(RawFile(name), name);
    assert IsTemp(TempFor(target, unique));
    ok := AtomicFile.WriteFileAtomic(fs, TempFor(target, unique), target, bytes, {8, 7}, windows);
    WritingKeepsTwinsSynced(old(fs.disk), fs.disk, TempFor(target, unique), target, bytes);
    if ok {
      PublishedLoads(old(fs.disk), fs.disk, name, value, fs.umask, windows, gzip, gunzip, print_, parse);
    }
  }

  function TempFor(target: Name, unique: string): Name {
    "." + target + "." + unique + ".tmp"
  }

  // ------------------------------------------------------------ archival

  ghost predicate SameEntry(v: Directory, v0: Directory, n: Name) {
    (n in v <==> n in v0) && (n in v ==> v[n] == v0[n])
  }

  /** File `i` is safe on disk and decompresses to `bytes`. */
  ghost predicate Holds(d: Disk, i: nat, bytes: Bytes, gunzip: Bytes -> Option<Bytes>) {
    i < |d.inodes| && !d.inodes[i].dirty && gunzip(d.inodes[i].bytes) == Some(bytes)
  }

  /** File `i` decompresses to `bytes`. */
  ghost predicate Decompresses(d: Disk, i: nat, bytes: Bytes, gunzip: Bytes -> Option<Bytes>) {
    i < |d.inodes| && gunzip(d.inodes[i].bytes) == Some(bytes)
  }

  /** The bytes of the raw file `r` before the archival. */
  ghost predicate RawBytes(d0: Disk, r: Name, bytes: Bytes) {
    d0.versions != [] && r in Current(d0) && Current(d0)[r] < |d0.inodes| && d0.inodes[Current(d0)[r]].bytes == bytes
  }

  /**
   Directory state `v` against the start: the raw file is still there, or was
   retired behind a compressed file that decompresses to it and is synced, if
   it was not there unsynced at the start; the compressed file is the one there
   was, or a new, synced one made while there was none.  With a faithful
   compressor a new one decompresses to the raw file at once.
   */
  ghost predicate PairOk(d0: Disk, d: Disk, v: Directory, r: Name, gunzip: Bytes -> Option<Bytes>, faithful: bool)
    requires d0.versions != []
  {
    var v0, g := Current(d0), Gz(r);
    && (SameEntry(v, v0, r)
        || (r in v0 && r !in v && g in v && v0[r] < |d0.inodes|
            && Decompresses(d, v[g], d0.inodes[v0[r]].bytes, gunzip) && (TwinSynced(d0, r) ==> !d.inodes[v[g]].dirty)))
    && (SameEntry(v, v0, g)
        || (g !in v0 && g in v && r in v0 && v0[r] < |d0.inodes| && v[g] < |d.inodes| && !d.inodes[v[g]].dirty
            && (faithful ==> Holds(d, v[g], d0.inodes[v0[r]].bytes, gunzip))))
  }

  ghost predicate IsGz(n: Name) {
    |n| >= 3 && n == Gz(n[..|n| - 3]) && IsRaw(n[..|n| - 3])
  }

  /** A name the archival has nothing to do with. */
  ghost predicate Ordinary(n: Name) {
    !IsRaw(n) && !IsGz(n) && !IsTemp(n)
  }

  ghost predicate VersionOk(d0: Disk, d: Disk, v: Directory, gunzip: Bytes -> Option<Bytes>, faithful: bool)
    requires d0.versions != []
  {
    && (forall r | IsRaw(r) :: PairOk(d0, d, v, r, gunzip, faithful))
    && (forall n {:trigger Ordinary(n)} | Ordinary(n) :: SameEntry(v, Current(d0), n))
  }

  /**
   Nothing is lost: the directory now, and every state a crash may leave that it could not leave before, is in order.
   */
  ghost predicate Kept(d0: Disk, d: Disk, gunzip: Bytes -> Option<Bytes>, faithful: bool) {
    && WellFormed(d0) && WellFormed(d) && d0.inodes <= d.inodes
    && VersionOk(d0, d, Current(d), gunzip, faithful)
    && forall v | v in d.versions :: v in d0.versions || VersionOk(d0, d, v, gunzip, faithful)
  }

  /** The contents a crash may leave, or a reader finds now, as directory state `v` of `d`. */
  ghost predicate Shows(d: Disk, v: Directory, c: Contents) {
    && c.Keys == v.Keys
    && forall n | n in v :: v[n] < |d.inodes| && (!d.inodes[v[n]].dirty ==> c[n] == d.inodes[v[n]].bytes)
  }

  /** Every artifact loads from `c` as it does from `c0`. */
  ghost predicate LoadsAlike<J>(c: Contents, c0: Contents, gunzip: Bytes -> Option<Bytes>, parse: Bytes -> Option<J>) {
    forall name | ValidName(name) :: Load(c, name, gunzip, parse) == Load(c0, name, gunzip, parse)
  }

  /** What stays of the start in a directory state: files still there show what they show now, or what they did then. */
  ghost function Before(d0: Disk, v: Directory, c: Contents): Contents
    requires WellFormed(d0) && c.Keys == v.Keys
  {
    map n | n in Current(d0) ::
      if n in v && v[n] == Current(d0)[n] && !(IsRaw(n) && Gz(n) in v && Gz(n) !in Current(d0)) then c[n]
      else d0.inodes[EntryOf(d0, n)].bytes
  }

  ghost function EntryOf(d: Disk, n: Name): (i: nat)
    requires WellFormed(d) && n in Current(d)
    ensures i == Current(d)[n] && i < |d.inodes|
  {
    assert Current(d) in d.versions;
    Current(d)[n]
  }

  lemma BeforeShows(d0: Disk, d: Disk, v: Directory, c: Contents)
    requires WellFormed(d0) && d0.inodes <= d.inodes && Shows(d, v, c)
    ensures Shows(d0, Current(d0), Before(d0, v, c))
  {
    forall n | n in Current(d0)
      ensures EntryOf(d0, n) < |d0.inodes|
      ensures !d0.inodes[EntryOf(d0, n)].dirty ==> Before(d0, v, c)[n] == d0.inodes[EntryOf(d0, n)].bytes
    {
      assert d.inodes[EntryOf(d0, n)] == d0.inodes[EntryOf(d0, n)];
    }
  }

  lemma BeforeLoadsAlike<J>(
      d0: Disk, d: Disk, v: Directory, c: Contents, name: string,
      gunzip: Bytes -> Option<Bytes>, parse: Bytes -> Option<J>)
    requires TwinsSynced(d0) && d0.inodes <= d.inodes && VersionOk(d0, d, v, gunzip, true)
    requires Shows(d, v, c) && ValidName(name)
    ensures Load(c, name, gunzip, parse) == Load(Before(d0, v, c), name, gunzip, parse)
  {
    var f := RawFile(name);
    LastChars(f, name);
    LastChars(f, f);
    if IsTrajectory(name) {
      TrajectoryRawFile(name);
      LastChars(f, Gz(f));
      assert PairOk(d0, d, v, f, gunzip, true);
    } else {
      if IsRaw(f) {
        RawFileTrajectory(name);
      }
      assert Ordinary(f);
    }
  }

  /**
   With a faithful compressor the archival adds no way to lose anything: in
   every state a crash may leave, all artifacts load as in one that a crash
   could have left before.
   */
  lemma KeptLoadsTheSame<J>(
      d0: Disk, d: Disk, v: Directory, c: Contents, gunzip: Bytes -> Option<Bytes>, parse: Bytes -> Option<J>)
    returns (v0: Directory, c0: Contents)
    requires Kept(d0, d, gunzip, true) && TwinsSynced(d0) && v in d.versions && Shows(d, v, c)
    ensures v0 in d0.versions && Shows(d0, v0, c0) && LoadsAlike(c, c0, gunzip, parse)
  {
    if v in d0.versions {
      return v, c;
    }
    v0, c0 := Current(d0), Before(d0, v, c);
    BeforeShows(d0, d, v, c);
    forall name | ValidName(name) ensures Load(c, name, gunzip, parse) == Load(c0, name, gunzip, parse) {
      BeforeLoadsAlike(d0, d, v, c, name, gunzip, parse);
    }
  }

  /** And without a crash every artifact loads exactly as before. */
  lemma KeptReadsTheSame<J>(
      d0: Disk, d: Disk, name: string, gunzip: Bytes -> Option<Bytes>, parse: Bytes -> Option<J>)
    requires Kept(d0, d, gunzip, true) && ValidName(name)
    ensures Load(ContentsOf(d), name, gunzip, parse) == Load(ContentsOf(d0), name, gunzip, parse)
  {
    var f := RawFile(name);
    LastChars(f, name);
    LastChars(f, f);
    assert Current(d) in d.versions && Current(d0) in d0.versions;
    if IsTrajectory(name) {
      TrajectoryRawFile(name);
      assert PairOk(d0, d, Current(d), f, gunzip, true);
    } else {
      if IsRaw(f) {
        RawFileTrajectory(name);
      }
      assert Ordinary(f);
    }
  }

  /**
   However the compressor behaves, a raw file missing from a state the
   archival brought about has a compressed file that decompresses to it.
   */
  lemma RetiredIsRecoverable(
      d0: Disk, d: Disk, v: Directory, r: Name, bytes: Bytes, c: Contents, gunzip: Bytes -> Option<Bytes>,
      faithful: bool)
    requires Kept(d0, d, gunzip, faithful) && v in d.versions && (v !in d0.versions || v == Current(d))
    requires IsRaw(r) && TwinSynced(d0, r) && Shows(d, v, c) && RawBytes(d0, r, bytes) && r !in c
    ensures Gz(r) in c && gunzip(c[Gz(r)]) == Some(bytes)
  {
    assert PairOk(d0, d, v, r, gunzip, faithful);
  }

  /** What the archival leaves is a fit start for the next one. */
  lemma KeptIsFitStart(d0: Disk, d: Disk, gunzip: Bytes -> Option<Bytes>, faithful: bool)
    requires Kept(d0, d, gunzip, faithful)
    ensures TwinsSynced(d0) ==> TwinsSynced(d)
  {
    forall r | IsRaw(r) && TwinsSynced(d0) ensures TwinSynced(d, r) {
      assert Current(d) in d.versions && PairOk(d0, d, Current(d), r, gunzip, faithful);
      assert TwinSynced(d0, r);
    }
  }

  lemma PairComposes(
      d0: Disk, d1: Disk, d: Disk, v: Directory, r: Name, gunzip: Bytes -> Option<Bytes>, faithful: bool)
    requires Kept(d0, d1, gunzip, faithful) && WellFormed(d) && d1.inodes <= d.inodes && IsRaw(r)
    requires PairOk(d1, d, v, r, gunzip, faithful)
    ensures PairOk(d0, d, v, r, gunzip, faithful)
  {
    assert Current(d1) in d1.versions && Current(d0) in d0.versions;
    assert PairOk(d0, d1, Current(d1), r, gunzip, faithful);
  }

  /** Archivals one after the other, retries included, keep what one keeps. */
  lemma KeptComposes(d0: Disk, d1: Disk, d: Disk, gunzip: Bytes -> Option<Bytes>, faithful: bool)
    requires Kept(d0, d1, gunzip, faithful) && Kept(d1, d, gunzip, faithful)
    ensures Kept(d0, d, gunzip, faithful)
  {
    VersionComposes(d0, d1, d, Current(d), gunzip, faithful);
    forall v | v in d.versions && v !in d0.versions ensures VersionOk(d0, d, v, gunzip, faithful) {
      if v in d1.versions {
        VersionOutlives(d0, d1, d, v, gunzip, faithful);
      } else {
        VersionComposes(d0, d1, d, v, gunzip, faithful);
      }
    }
  }

  lemma VersionComposes(
      d0: Disk, d1: Disk, d: Disk, v: Directory, gunzip: Bytes -> Option<Bytes>, faithful: bool)
    requires Kept(d0, d1, gunzip, faithful) && WellFormed(d) && d1.inodes <= d.inodes
    requires VersionOk(d1, d, v, gunzip, faithful)
    ensures VersionOk(d0, d, v, gunzip, faithful)
  {
    forall r | IsRaw(r) ensures PairOk(d0, d, v, r, gunzip, faithful) {
      PairComposes(d0, d1, d, v, r, gunzip, faithful);
    }
    forall n | Ordinary(n) ensures SameEntry(v, Current(d0), n) {
      assert SameEntry(v, Current(d1), n) && SameEntry(Current(d1), Current(d0), n);
    }
  }

  lemma VersionOutlives(
      d0: Disk, d1: Disk, d: Disk, v: Directory, gunzip: Bytes -> Option<Bytes>, faithful: bool)
    requires d0.versions != [] && VersionOk(d0, d1, v, gunzip, faithful) && d1.inodes <= d.inodes
    ensures VersionOk(d0, d, v, gunzip, faithful)
  {
    forall r | IsRaw(r) ensures PairOk(d0, d, v, r, gunzip, faithful) {
      assert PairOk(d0, d1, v, r, gunzip, faithful);
    }
  }

  /**
   Against a crash it matters that the compressed file is synced.  A raw file
   is retired behind one that decompresses to it; however a crash leaves the
   state without the raw file, that compressed file still does, exactly if it
   was synced.  `other` is anything else a crash could leave in its place.
   */
  lemma RetirementSafeExactly(d: Disk, r: Name, bytes: Bytes, gunzip: Bytes -> Option<Bytes>, other: Bytes)
    requires WellFormed(d) && IsRaw(r) && RawBytes(d, r, bytes) && Gz(r) in Current(d)
    requires gunzip(d.inodes[EntryOf(d, Gz(r))].bytes) == Some(bytes) && gunzip(other) != Some(bytes)
    ensures TwinSynced(d, r) <==> LastStateRecovers(Removed(d, r), r, bytes, gunzip)
  {
    var d', g := Removed(d, r), Gz(r);
    LastChars(r, g);
    assert Current(d') == Current(d) - {r};
    if !TwinSynced(d, r) {
      var c := map n | n in Current(d') :: if n == g then other else d.inodes[EntryOf(d, n)].bytes;
      assert Shows(d', Current(d'), c);
    }
  }

  /** However a crash leaves the newest directory state, the compressed file decompresses to `bytes`. */
  ghost predicate LastStateRecovers(d: Disk, r: Name, bytes: Bytes, gunzip: Bytes -> Option<Bytes>)
    requires d.versions != []
  {
    forall c | Shows(d, Current(d), c) :: Gz(r) in c && gunzip(c[Gz(r)]) == Some(bytes)
  }

  // -------------------------------------------------- steps of archival

  /** Only temporary names refer to file `i`. */
  ghost predicate Private(d: Disk, i: nat) {
    forall v, n | v in d.versions && n in v && v[n] == i :: IsTemp(n)
  }

  /** Files other than a private one are as they were. */
  ghost predicate FilesKept(d: Disk, d': Disk, i: nat) {
    && |d.inodes| <= |d'.inodes|
    && forall k | 0 <= k < |d.inodes| && k != i :: d'.inodes[k] == d.inodes[k]
  }

  lemma VersionStaysOk(
      d0: Disk, d: Disk, d': Disk, v: Directory, i: nat, gunzip: Bytes -> Option<Bytes>, faithful: bool)
    requires d0.versions != [] && VersionOk(d0, d, v, gunzip, faithful) && FilesKept(d, d', i)
    requires forall n | n in v && v[n] == i :: IsTemp(n)
    requires forall n | n in v :: v[n] < |d.inodes|
    ensures VersionOk(d0, d', v, gunzip, faithful)
  {
    forall r | IsRaw(r) ensures PairOk(d0, d', v, r, gunzip, faithful) {
      LastChars(r, r);
      LastChars(r, Gz(r));
      assert PairOk(d0, d, v, r, gunzip, faithful);
    }
  }

  /** The directory states of `d` stay in order when only a private file changes. */
  lemma OldVersionsStayOk(d0: Disk, d: Disk, d': Disk, i: nat, gunzip: Bytes -> Option<Bytes>, faithful: bool)
    requires Kept(d0, d, gunzip, faithful) && FilesKept(d, d', i) && Private(d, i)
    ensures forall v | v in d.versions :: v in d0.versions || VersionOk(d0, d', v, gunzip, faithful)
  {
    forall v | v in d.versions && v !in d0.versions ensures VersionOk(d0, d', v, gunzip, faithful) {
      VersionStaysOk(d0, d, d', v, i, gunzip, faithful);
    }
  }

  /** A change to the entry of a temporary name is no change to the evidence. */
  lemma TempEntryIsFree(d0: Disk, d: Disk, v: Directory, v': Directory, gunzip: Bytes -> Option<Bytes>, faithful: bool)
    requires d0.versions != [] && VersionOk(d0, d, v, gunzip, faithful)
    requires forall n | !IsTemp(n) :: SameEntry(v', v, n)
    ensures VersionOk(d0, d, v', gunzip, faithful)
  {
    forall r | IsRaw(r) ensures PairOk(d0, d, v', r, gunzip, faithful) {
      LastChars(r, r);
      LastChars(r, Gz(r));
      assert PairOk(d0, d, v, r, gunzip, faithful);
      assert SameEntry(v', v, r) && SameEntry(v', v, Gz(r));
    }
  }

  lemma KeptByCreation(d0: Disk, d: Disk, temp: Name, mode: Mode, gunzip: Bytes -> Option<Bytes>, faithful: bool)
    requires Kept(d0, d, gunzip, faithful) && IsTemp(temp)
    ensures Kept(d0, Created(d, temp, mode), gunzip, faithful) && Private(Created(d, temp, mode), |d.inodes|)
  {
    var d' := Created(d, temp, mode);
    assert Current(d) in d.versions;
    VersionStaysOk(d0, d, d', Current(d), |d.inodes|, gunzip, faithful);
    TempEntryIsFree(d0, d', Current(d), Current(d'), gunzip, faithful);
    OldVersionsStayOk(d0, d, d', |d.inodes|, gunzip, faithful);
  }

  /** `d'` is `d` but for the file numbered `i`. */
  ghost predicate OnlyInode(d: Disk, d': Disk, i: nat) {
    i < |d.inodes| == |d'.inodes| && d' == d.(inodes := d.inodes[i := d'.inodes[i]])
  }

  lemma KeptByInode(d0: Disk, d: Disk, d': Disk, i: nat, gunzip: Bytes -> Option<Bytes>, faithful: bool)
    requires Kept(d0, d, gunzip, faithful) && Private(d, i) && |d0.inodes| <= i && OnlyInode(d, d', i)
    ensures Kept(d0, d', gunzip, faithful) && Private(d', i)
  {
    assert Current(d) in d.versions;
    VersionStaysOk(d0, d, d', Current(d), i, gunzip, faithful);
    OldVersionsStayOk(d0, d, d', i, gunzip, faithful);
  }

  lemma KeptByTempRemoval(d0: Disk, d: Disk, temp: Name, gunzip: Bytes -> Option<Bytes>, faithful: bool)
    requires Kept(d0, d, gunzip, faithful) && IsTemp(temp)
    ensures Kept(d0, Removed(d, temp), gunzip, faithful)
  {
    var d' := Removed(d, temp);
    assert Current(d) in d.versions;
    VersionStaysOk(d0, d, d', Current(d), |d.inodes|, gunzip, faithful);
    OldVersionsStayOk(d0, d, d', |d.inodes|, gunzip, faithful);
    TempEntryIsFree(d0, d', Current(d), Current(d'), gunzip, faithful);
  }

  lemma PairKeptByLink(d0: Disk, d: Disk, temp: Name, r: Name, q: Name, gunzip: Bytes -> Option<Bytes>, faithful: bool)
    requires Kept(d0, d, gunzip, faithful) && IsRaw(r) && r in Current(d) && IsRaw(q)
    requires temp in Current(d) && !d.inodes[Current(d)[temp]].dirty && Gz(r) !in Current(d)
    requires faithful ==> Holds(d, Current(d)[temp], d.inodes[Current(d)[r]].bytes, gunzip)
    ensures PairOk(d0, Linked(d, temp, Gz(r)), Current(d)[Gz(r) := Current(d)[temp]], q, gunzip, faithful)
  {
    assert Current(d) in d.versions;
    LastChars(r, q);
    LastChars(q, r);
    assert PairOk(d0, d, Current(d), q, gunzip, faithful);
    assert Gz(q)[..|q|] == q && Gz(r)[..|r|] == r;
  }

  /** Publishing a synced compressed file where there was none. */
  lemma KeptByLink(d0: Disk, d: Disk, temp: Name, r: Name, gunzip: Bytes -> Option<Bytes>, faithful: bool)
    requires Kept(d0, d, gunzip, faithful) && IsRaw(r) && r in Current(d)
    requires temp in Current(d) && !d.inodes[Current(d)[temp]].dirty && Gz(r) !in Current(d)
    requires faithful ==> Holds(d, Current(d)[temp], d.inodes[Current(d)[r]].bytes, gunzip)
    ensures Kept(d0, Linked(d, temp, Gz(r)), gunzip, faithful)
  {
    var d', v := Linked(d, temp, Gz(r)), Current(d);
    assert v in d.versions;
    forall q | IsRaw(q) ensures PairOk(d0, d', v[Gz(r) := v[temp]], q, gunzip, faithful) {
      PairKeptByLink(d0, d, temp, r, q, gunzip, faithful);
    }
    assert IsGz(Gz(r)) by {
      assert Gz(r)[..|Gz(r)| - 3] == r;
    }
    OldVersionsStayOk(d0, d, d', |d.inodes|, gunzip, faithful);
  }

  lemma RetirementKeepsPair(d0: Disk, d: Disk, r: Name, q: Name, gunzip: Bytes -> Option<Bytes>, faithful: bool)
    requires Kept(d0, d, gunzip, faithful) && IsRaw(r) && IsRaw(q) && r in Current(d) && Gz(r) in Current(d)
    requires gunzip(d.inodes[Current(d)[Gz(r)]].bytes) == Some(d.inodes[Current(d)[r]].bytes)
    ensures PairOk(d0, Removed(d, r), Current(Removed(d, r)), q, gunzip, faithful)
  {
    var v := Current(d);
    LastChars(r, q);
    LastChars(q, r);
    assert v in d.versions && Current(d0) in d0.versions && Current(Removed(d, r)) == v - {r};
    assert PairOk(d0, d, v, q, gunzip, faithful) && PairOk(d0, d, v, r, gunzip, faithful);
  }

  /** Retiring a raw file whose compressed file decompresses to it. */
  lemma KeptByRetirement(d0: Disk, d: Disk, r: Name, gunzip: Bytes -> Option<Bytes>, faithful: bool)
    requires Kept(d0, d, gunzip, faithful) && IsRaw(r) && r in Current(d) && Gz(r) in Current(d)
    requires gunzip(d.inodes[Current(d)[Gz(r)]].bytes) == Some(d.inodes[Current(d)[r]].bytes)
    ensures Kept(d0, Removed(d, r), gunzip, faithful)
  {
    var d' := Removed(d, r);
    forall q | IsRaw(q) ensures PairOk(d0, d', Current(d'), q, gunzip, faithful) {
      RetirementKeepsPair(d0, d, r, q, gunzip, faithful);
    }
    OldVersionsStayOk(d0, d, d', |d.inodes|, gunzip, faithful);
  }

  lemma KeptAtStart(d0: Disk, gunzip: Bytes -> Option<Bytes>, faithful: bool)
    requires WellFormed(d0)
    ensures Kept(d0, d0, gunzip, faithful)
  {
  }

  // ------------------------------------------------------------- methods

  ghost predicate TraceKept(trace: seq<Disk>, from: nat, d0: Disk, gunzip: Bytes -> Option<Bytes>, faithful: bool) {
    forall k | from <= k < |trace| :: Kept(d0, trace[k], gunzip, faithful)
  }

  lemma TraceKeptChains(
      trace0: seq<Disk>, trace1: seq<Disk>, trace: seq<Disk>, d0: Disk, gunzip: Bytes -> Option<Bytes>, faithful: bool)
    requires trace0 <= trace1 <= trace
    requires TraceKept(trace1, |trace0|, d0, gunzip, faithful) && TraceKept(trace, |trace1|, d0, gunzip, faithful)
    ensures trace0 <= trace && TraceKept(trace, |trace0|, d0, gunzip, faithful)
  {
    assert forall k | 0 <= k < |trace1| :: trace[k] == trace1[k];
  }

  /** Nothing but `temp` changed in the directory, and no file there was changed. */
  ghost predicate OnlyTemp(before: Disk, d: Disk, temp: Name) {
    && before.versions != [] && d.versions != []
    && before.inodes <= d.inodes
    && forall n | n != temp :: SameEntry(Current(d), Current(before), n)
  }

  /** `temp` names a file of its own, the one numbered `i`, holding `bytes`. */
  ghost predicate TempHolds(d: Disk, temp: Name, i: nat, bytes: Bytes) {
    && d.versions != [] && temp in Current(d) && Current(d)[temp] == i < |d.inodes|
    && d.inodes[i].bytes == bytes
    && Private(d, i)
  }

  lemma OnlyTempWritten(before: Disk, created: Disk, d: Disk, temp: Name)
    requires OnlyTemp(before, created, temp) && OnlyInode(created, d, |before.inodes|)
    ensures OnlyTemp(before, d, temp)
  {
    assert Current(d) == Current(created);
  }

  /** Write the new file and close it. */
  method FillTemporary(
      fs: FileSystem, ghost d0: Disk, temp: Name, fd: nat, ghost i: nat, bytes: Bytes,
      ghost gunzip: Bytes -> Option<Bytes>, ghost faithful: bool)
    returns (ok: bool)
    requires fs.Valid() && TempHolds(fs.disk, temp, i, []) && |d0.inodes| <= i
    requires fd < |fs.fds| && fs.fds[fd] == Descriptor(Some(i), true, false)
    requires Kept(d0, fs.disk, gunzip, faithful)
    modifies fs`disk, fs`trace, fs`fds, fs`faults
    ensures fs.Valid() && Kept(d0, fs.disk, gunzip, faithful)
    ensures old(fs.trace) <= fs.trace && TraceKept(fs.trace, |old(fs.trace)|, d0, gunzip, faithful)
    ensures OnlyInode(old(fs.disk), fs.disk, i)
    ensures ok ==> TempHolds(fs.disk, temp, i, bytes)
    ensures old(fs.faults) <= fs.faults && (ok <==> fs.faults == old(fs.faults))
  {
    ghost var created := fs.disk;
    ok := fs.Write(fd, bytes);
    KeptByInode(d0, created, fs.disk, i, gunzip, faithful);
    if ok {
      assert [] + bytes == bytes;
      ok := fs.CloseFd(fd);
    }
  }

  /** Stream the compressed raw file into a new `temp`. */
  method WriteCompressed(fs: FileSystem, ghost d0: Disk, r: Name, temp: Name, gzip: Bytes -> Bytes,
                         ghost gunzip: Bytes -> Option<Bytes>, ghost faithful: bool)
    returns (ok: bool, ghost raw: Bytes)
    requires fs.Valid() && IsTemp(temp) && r != temp
    requires Kept(d0, fs.disk, gunzip, faithful)
    modifies fs
    ensures fs.Valid() && Kept(d0, fs.disk, gunzip, faithful)
    ensures old(fs.trace) <= fs.trace && TraceKept(fs.trace, |old(fs.trace)|, d0, gunzip, faithful)
    ensures OnlyTemp(old(fs.disk), fs.disk, temp)
    ensures ok ==> Visible(old(fs.disk), r) == Some(raw)
    ensures ok ==> TempHolds(fs.disk, temp, |old(fs.disk.inodes)|, gzip(raw))
    ensures old(fs.faults) <= fs.faults && (ok <==> fs.faults == old(fs.faults))
  {
    ghost var before, i := fs.disk, |fs.disk.inodes|;
    var source := fs.Read(r);
    if source == None {
      return false, [];
    }
    raw := source.value;
    KeptByCreation(d0, before, temp, {8, 7} - fs.umask, gunzip, faithful);
    var fd := fs.CreateExclusive(temp, {8, 7});
    if fd == None {
      return false, raw;
    }
    ghost var created := fs.disk;
    ok := FillTemporary(fs, d0, temp, fd.value, i, gzip(source.value), gunzip, faithful);
    OnlyTempWritten(before, created, fs.disk, temp);
  }

  /** Open `temp` again and sync it. */
  method SyncTemporary(fs: FileSystem, ghost d0: Disk, temp: Name, ghost i: nat, ghost bytes: Bytes,
                       ghost gunzip: Bytes -> Option<Bytes>, ghost faithful: bool)
    returns (ok: bool)
    requires fs.Valid() && TempHolds(fs.disk, temp, i, bytes) && |d0.inodes| <= i
    requires Kept(d0, fs.disk, gunzip, faithful)
    modifies fs
    ensures fs.Valid() && Kept(d0, fs.disk, gunzip, faithful)
    ensures old(fs.trace) <= fs.trace && TraceKept(fs.trace, |old(fs.trace)|, d0, gunzip, faithful)
    ensures fs.disk.versions == old(fs.disk.versions) && TempHolds(fs.disk, temp, i, bytes)
    ensures |fs.disk.inodes| == |old(fs.disk.inodes)| && fs.disk.inodes[..i] == old(fs.disk.inodes)[..i]
    ensures ok ==> !fs.disk.inodes[i].dirty
    ensures old(fs.faults) <= fs.faults && (ok <==> fs.faults == old(fs.faults))
  {
    var fd := fs.OpenExisting(temp);
    if fd == None {
      return false;
    }
    ghost var written := fs.disk;
    var synced := fs.Fsync(fd.value);
    KeptByInode(d0, written, fs.disk, i, gunzip, faithful);
    var closed := fs.CloseFd(fd.value);
    return synced && closed;
  }

  /** `temp` holds the synced compressed form of what `r` names. */
  ghost predicate Prepared(d: Disk, r: Name, temp: Name, gzip: Bytes -> Bytes) {
    && d.versions != [] && r in Current(d) && temp in Current(d)
    && Current(d)[r] < |d.inodes| && Current(d)[temp] < |d.inodes|
    && !d.inodes[Current(d)[temp]].dirty
    && d.inodes[Current(d)[temp]].bytes == gzip(d.inodes[Current(d)[r]].bytes)
  }

  /** Compress the raw file into `temp` and sync it. */
  method Compress(fs: FileSystem, ghost d0: Disk, r: Name, temp: Name, gzip: Bytes -> Bytes,
                  ghost gunzip: Bytes -> Option<Bytes>, ghost faithful: bool)
    returns (ok: bool)
    requires fs.Valid() && IsTemp(temp) && r != temp
    requires Kept(d0, fs.disk, gunzip, faithful)
    modifies fs
    ensures fs.Valid() && Kept(d0, fs.disk, gunzip, faithful)
    ensures old(fs.trace) <= fs.trace && TraceKept(fs.trace, |old(fs.trace)|, d0, gunzip, faithful)
    ensures OnlyTemp(old(fs.disk), fs.disk, temp)
    ensures ok ==> Prepared(fs.disk, r, temp, gzip)
    ensures old(fs.faults) <= fs.faults && (ok <==> fs.faults == old(fs.faults))
  {
    ghost var before, raw := fs.disk, [];
    ok, raw := WriteCompressed(fs, d0, r, temp, gzip, gunzip, faithful);
    if ok {
      ghost var mid := fs.disk;
      ok := SyncTemporary(fs, d0, temp, |before.inodes|, gzip(raw), gunzip, faithful);
      SyncedKeepsOthers(before, mid, fs.disk, r, temp);
    }
  }

  lemma SyncedKeepsOthers(before: Disk, mid: Disk, d: Disk, r: Name, temp: Name)
    requires WellFormed(before) && OnlyTemp(before, mid, temp) && r != temp
    requires d.versions == mid.versions && |d.inodes| == |mid.inodes|
    requires d.inodes[..|before.inodes|] == mid.inodes[..|before.inodes|]
    ensures OnlyTemp(before, d, temp)
    ensures Visible(d, r) == Visible(before, r)
  {
    assert Current(before) in before.versions;
    assert forall k | 0 <= k < |before.inodes| :: d.inodes[k] == d.inodes[..|before.inodes|][k] == mid.inodes[k];
    assert Current(d) == Current(mid);
    assert SameEntry(Current(d), Current(before), r);
  }

  /** There is a compressed file beside the raw one, and it is not that file's. */
  ghost predicate Mismatch(d: Disk, r: Name, gunzip: Bytes -> Option<Bytes>) {
    && d.versions != [] && r in Current(d) && Gz(r) in Current(d)
    && Current(d)[r] < |d.inodes| && Current(d)[Gz(r)] < |d.inodes|
    && gunzip(d.inodes[Current(d)[Gz(r)]].bytes) != Some(d.inodes[Current(d)[r]].bytes)
  }

  /** With a faithful compressor only a compressed file from before the archival can mismatch. */
  lemma MismatchIsOld(d0: Disk, d: Disk, r: Name, gunzip: Bytes -> Option<Bytes>)
    requires Kept(d0, d, gunzip, true) && IsRaw(r) && Mismatch(d, r, gunzip)
    ensures Mismatch(d0, r, gunzip)
  {
    assert Current(d) in d.versions && Current(d0) in d0.versions;
    assert PairOk(d0, d, Current(d), r, gunzip, true);
  }

  /** What `stat` says of the raw file at the start. */
  ghost predicate StatOf(d: Disk, r: Name, info: (nat, nat)) {
    && d.versions != [] && r in Current(d) && Current(d)[r] < |d.inodes|
    && info == (Current(d)[r], |d.inodes[Current(d)[r]].bytes|)
  }

  /** While it is there the raw file is the one it was. */
  lemma StatIsOld(d0: Disk, d: Disk, r: Name, info: (nat, nat), gunzip: Bytes -> Option<Bytes>, faithful: bool)
    requires Kept(d0, d, gunzip, faithful) && IsRaw(r) && r in Current(d)
    ensures StatOf(d, r, info) <==> StatOf(d0, r, info)
  {
    assert Current(d) in d.versions && Current(d0) in d0.versions;
    assert PairOk(d0, d, Current(d), r, gunzip, faithful);
  }

  /** Whether the published compressed file decompresses to the raw one; none when either cannot be read. */
  method Verify(
      fs: FileSystem, r: Name, gunzip: Bytes -> Option<Bytes>, digest: Bytes -> string)
    returns (same: Option<bool>)
    requires fs.Valid() && forall a, b :: digest(a) == digest(b) ==> a == b
    modifies fs`trace, fs`faults
    ensures old(fs.trace) <= fs.trace && forall k | |old(fs.trace)| <= k < |fs.trace| :: fs.trace[k] == fs.disk
    ensures same == Some(true) ==>
              r in Current(fs.disk) && Gz(r) in Current(fs.disk)
              && gunzip(fs.disk.inodes[Current(fs.disk)[Gz(r)]].bytes)
                  == Some(fs.disk.inodes[Current(fs.disk)[r]].bytes)
    ensures old(fs.faults) <= fs.faults && (same == Some(true) ==> fs.faults == old(fs.faults))
    ensures same != Some(true) ==> fs.faults > old(fs.faults) || Mismatch(fs.disk, r, gunzip)
  {
    var source := fs.Read(r);
    if source == None {
      return None;
    }
    var target := fs.Read(Gz(r));
    if target == None || gunzip(target.value) == None {
      return None;
    }
    return Some(digest(source.value) == digest(gunzip(target.value).value));
  }

  /** Publish the compressed file unless there is one already. */
  method LinkCompressed(fs: FileSystem, ghost d0: Disk, r: Name, temp: Name, ghost gzip: Bytes -> Bytes,
                        ghost gunzip: Bytes -> Option<Bytes>, ghost faithful: bool)
    returns (ok: bool)
    requires fs.Valid() && IsRaw(r) && Prepared(fs.disk, r, temp, gzip)
    requires Kept(d0, fs.disk, gunzip, faithful)
    requires faithful ==> forall b :: gunzip(gzip(b)) == Some(b)
    modifies fs`disk, fs`trace, fs`faults
    ensures fs.Valid() && Kept(d0, fs.disk, gunzip, faithful)
    ensures old(fs.trace) <= fs.trace && TraceKept(fs.trace, |old(fs.trace)|, d0, gunzip, faithful)
    ensures fs.disk.inodes == old(fs.disk.inodes)
    ensures OtherNamesKept(old(fs.disk), fs.disk, r, temp)
    ensures old(fs.faults) <= fs.faults && (ok <==> fs.faults == old(fs.faults))
  {
    var link := fs.Link(temp, Gz(r));
    if link == Done {
      KeptByLink(d0, old(fs.disk), temp, r, gunzip, faithful);
    }
    return link != Fault;
  }

  /** Verify the published file and make sure the raw one did not change: the size of the published file. */
  method VerifyUnchanged(fs: FileSystem, ghost d0: Disk, r: Name, before: (nat, nat),
                         gunzip: Bytes -> Option<Bytes>, digest: Bytes -> string, ghost faithful: bool)
    returns (size: Option<nat>)
    requires fs.Valid() && IsRaw(r) && Kept(d0, fs.disk, gunzip, faithful)
    requires forall a, b :: digest(a) == digest(b) ==> a == b
    requires StatOf(d0, r, before)
    modifies fs`trace, fs`faults
    ensures old(fs.trace) <= fs.trace && forall k | |old(fs.trace)| <= k < |fs.trace| :: fs.trace[k] == fs.disk
    ensures size.Some? ==>
              r in Current(fs.disk) && Gz(r) in Current(fs.disk)
              && gunzip(fs.disk.inodes[Current(fs.disk)[Gz(r)]].bytes)
                  == Some(fs.disk.inodes[Current(fs.disk)[r]].bytes)
              && Visible(fs.disk, Gz(r)).Some? && size == Some(|Visible(fs.disk, Gz(r)).value|)
    ensures old(fs.faults) <= fs.faults && (size.Some? ==> fs.faults == old(fs.faults))
    ensures size == None ==> fs.faults > old(fs.faults) || !faithful || Mismatch(d0, r, gunzip)
  {
    var same := Verify(fs, r, gunzip, digest);
    if same != Some(true) {
      if faithful && Mismatch(fs.disk, r, gunzip) {
        MismatchIsOld(d0, fs.disk, r, gunzip);
      }
      return None;
    }
    StatIsOld(d0, fs.disk, r, before, gunzip, faithful);
    var after := fs.Stat(r);
    if after != Some(before) {
      return None;
    }
    var target := fs.Stat(Gz(r));
    return if target.Some? then Some(target.value.1) else None;
  }

  /** Verify the published file, make sure the raw one did not change, and retire it. */
  method VerifyAndRetire(fs: FileSystem, ghost d0: Disk, r: Name, before: (nat, nat),
                         gunzip: Bytes -> Option<Bytes>, digest: Bytes -> string, ghost faithful: bool)
    returns (size: Option<nat>)
    requires fs.Valid() && IsRaw(r) && Kept(d0, fs.disk, gunzip, faithful)
    requires forall a, b :: digest(a) == digest(b) ==> a == b
    requires StatOf(d0, r, before)
    modifies fs`disk, fs`trace, fs`unremoved, fs`faults
    ensures fs.Valid() && Kept(d0, fs.disk, gunzip, faithful)
    ensures old(fs.trace) <= fs.trace && TraceKept(fs.trace, |old(fs.trace)|, d0, gunzip, faithful)
    ensures fs.disk.inodes == old(fs.disk.inodes)
    ensures forall temp :: OtherNamesKept(old(fs.disk), fs.disk, r, temp)
    ensures size.Some? ==>
              r !in Current(fs.disk) && Visible(fs.disk, Gz(r)).Some? && size == Some(|Visible(fs.disk, Gz(r)).value|)
    ensures old(fs.faults) <= fs.faults && (size.Some? ==> fs.faults == old(fs.faults))
    ensures size == None ==> fs.faults > old(fs.faults) || !faithful || Mismatch(d0, r, gunzip)
  {
    LastChars(r, r);
    size := VerifyUnchanged(fs, d0, r, before, gunzip, digest, faithful);
    if size == None {
      return None;
    }
    KeptByRetirement(d0, fs.disk, r, gunzip, faithful);
    var unlinked := fs.Unlink(r);
    return if unlinked then size else None;
  }

  /** What the archival of one entry reports. */
  datatype Archived = Failed | Sized(original: nat, compressed: nat)

  /** The try block: the size of the compressed file once the raw one is retired. */
  method CompressAndRetire(fs: FileSystem, ghost d0: Disk, r: Name, temp: Name, before: (nat, nat),
                           gzip: Bytes -> Bytes, gunzip: Bytes -> Option<Bytes>, digest: Bytes -> string,
                           ghost faithful: bool)
    returns (size: Option<nat>)
    requires fs.Valid() && IsRaw(r) && IsTemp(temp) && r != temp && Gz(r) != temp && Kept(d0, fs.disk, gunzip, faithful)
    requires forall a, b :: digest(a) == digest(b) ==> a == b
    requires faithful ==> forall b :: gunzip(gzip(b)) == Some(b)
    requires StatOf(d0, r, before)
    modifies fs
    ensures fs.Valid() && Kept(d0, fs.disk, gunzip, faithful)
    ensures old(fs.trace) <= fs.trace && TraceKept(fs.trace, |old(fs.trace)|, d0, gunzip, faithful)
    ensures old(fs.disk.inodes) <= fs.disk.inodes
    ensures OtherNamesKept(old(fs.disk), fs.disk, r, temp)
    ensures size.Some? ==>
              r !in Current(fs.disk) && Visible(fs.disk, Gz(r)).Some? && size == Some(|Visible(fs.disk, Gz(r)).value|)
    ensures old(fs.faults) <= fs.faults && (size.Some? ==> fs.faults == old(fs.faults))
    ensures size == None ==> fs.faults > old(fs.faults) || !faithful || Mismatch(d0, r, gunzip)
  {
    size := None;
    var ok := Compress(fs, d0, r, temp, gzip, gunzip, faithful);
    OthersChained(old(fs.disk), fs.disk, fs.disk, r, temp);
    if !ok {
      return;
    }
    ghost var compressed := fs.disk;
    ok := LinkCompressed(fs, d0, r, temp, gzip, gunzip, faithful);
    OthersChained(old(fs.disk), compressed, fs.disk, r, temp);
    if !ok {
      return;
    }
    ghost var linked := fs.disk;
    size := VerifyAndRetire(fs, d0, r, before, gunzip, digest, faithful);
    OthersChained(old(fs.disk), linked, fs.disk, r, temp);
  }

  lemma OthersChained(before: Disk, mid: Disk, d: Disk, r: Name, temp: Name)
    requires OtherNamesKept(before, mid, r, temp) && OtherNamesKept(mid, d, r, temp)
    ensures OtherNamesKept(before, d, r, temp)
  {
    forall n | n != temp && n != r && n != Gz(r) ensures SameEntry(Current(d), Current(before), n) {
      assert SameEntry(Current(d), Current(mid), n) && SameEntry(Current(mid), Current(before), n);
    }
  }

  ghost predicate OtherNamesKept(before: Disk, d: Disk, r: Name, temp: Name) {
    before.versions != [] && d.versions != []
    && forall n | n != temp && n != r && n != Gz(r) :: SameEntry(Current(d), Current(before), n)
  }

  /** The try block and its finally: the temporary file stays only if it could not be removed. */
  method ArchiveThrough(fs: FileSystem, ghost d0: Disk, r: Name, temp: Name, before: (nat, nat),
                        gzip: Bytes -> Bytes, gunzip: Bytes -> Option<Bytes>, digest: Bytes -> string,
                        ghost faithful: bool)
    returns (size: Option<nat>)
    requires fs.Valid() && IsRaw(r) && IsTemp(temp) && r != temp && Gz(r) != temp && Kept(d0, fs.disk, gunzip, faithful)
    requires forall a, b :: digest(a) == digest(b) ==> a == b
    requires faithful ==> forall b :: gunzip(gzip(b)) == Some(b)
    requires StatOf(d0, r, before)
    modifies fs
    ensures fs.Valid() && Kept(d0, fs.disk, gunzip, faithful)
    ensures old(fs.trace) <= fs.trace && TraceKept(fs.trace, |old(fs.trace)|, d0, gunzip, faithful)
    ensures old(fs.disk.inodes) <= fs.disk.inodes
    ensures OtherNamesKept(old(fs.disk), fs.disk, r, temp)
    ensures temp in Current(fs.disk) ==> temp in fs.unremoved
    ensures size.Some? ==>
              r !in Current(fs.disk) && Visible(fs.disk, Gz(r)).Some? && size == Some(|Visible(fs.disk, Gz(r)).value|)
    ensures old(fs.faults) <= fs.faults && (size.Some? ==> fs.faults == old(fs.faults))
    ensures size == None ==> fs.faults > old(fs.faults) || !faithful || Mismatch(d0, r, gunzip)
  {
    size := CompressAndRetire(fs, d0, r, temp, before, gzip, gunzip, digest, faithful);
    ghost var tried := fs.disk;
    KeptByTempRemoval(d0, tried, temp, gunzip, faithful);
    var removed := fs.Remove(temp);
    OthersChained(old(fs.disk), tried, fs.disk, r, temp);
    if !removed {
      size := None;
    }
  }

  /** The body of the loop for one completed trajectory. */
  method ArchiveOne(fs: FileSystem, ghost d0: Disk, r: Name, unique: string, dryRun: bool,
                    gzip: Bytes -> Bytes, gunzip: Bytes -> Option<Bytes>, digest: Bytes -> string, ghost faithful: bool)
    returns (result: Archived)
    requires fs.Valid() && IsRaw(r) && Kept(d0, fs.disk, gunzip, faithful)
    requires forall a, b :: digest(a) == digest(b) ==> a == b
    requires faithful ==> forall b :: gunzip(gzip(b)) == Some(b)
    modifies fs
    ensures fs.Valid() && Kept(d0, fs.disk, gunzip, faithful)
    ensures old(fs.trace) <= fs.trace && TraceKept(fs.trace, |old(fs.trace)|, d0, gunzip, faithful)
    ensures dryRun ==> fs.disk == old(fs.disk)
    ensures old(fs.disk.inodes) <= fs.disk.inodes
    ensures OtherNamesKept(old(fs.disk), fs.disk, r, Gz(r) + "." + unique + ".tmp")
    ensures result.Sized? ==>
              Visible(old(fs.disk), r).Some? && result.original == |Visible(old(fs.disk), r).value|
              && (!dryRun ==> r !in Current(fs.disk) && Visible(fs.disk, Gz(r)).Some?
                              && result.compressed == |Visible(fs.disk, Gz(r)).value|)
    ensures old(fs.faults) <= fs.faults && (result.Sized? ==> fs.faults == old(fs.faults))
    ensures result.Failed? ==> fs.faults > old(fs.faults) || !faithful || Mismatch(d0, r, gunzip)
  {
    LastChars(r, r);
    var temp := Gz(r) + "." + unique + ".tmp";
    LastChars(r, temp);
    var before := fs.Stat(r);
    if before == None {
      return Failed;
    }
    StatIsOld(d0, fs.disk, r, before.value, gunzip, faithful);
    if dryRun {
      return Sized(before.value.1, 0);
    }
    var size := ArchiveThrough(fs, d0, r, temp, before.value, gzip, gunzip, digest, faithful);
    return if size.Some? then Sized(before.value.1, size.value) else Failed;
  }

  /** The bytes under the given names, added up. */
  function TotalSize(d: Disk, names: seq<Name>): nat
    requires d.versions != []
  {
    if names == [] then 0
    else
      var n := |names| - 1;
      TotalSize(d, names[..n]) + match Visible(d, names[n]) case Some(b) => |b| case None => 0
  }

  lemma {:induction false} TotalSizeUnchanged(d: Disk, d': Disk, names: seq<Name>)
    requires d.versions != [] && d'.versions != []
    requires forall n | n in names :: Visible(d', n) == Visible(d, n)
    ensures TotalSize(d', names) == TotalSize(d, names)
  {
    if names != [] {
      TotalSizeUnchanged(d, d', names[..|names| - 1]);
    }
  }

  /** `done`, and the entry if it is a completed trajectory: a regular file with a trajectory's name. */
  function Extended(done: seq<Name>, entry: (Name, bool)): seq<Name> {
    if entry.1 && IsRaw(entry.0) then done + [entry.0] else done
  }

  /** The completed trajectories among the directory's entries. */
  function Trajectories(entries: seq<(Name, bool)>): (raws: seq<Name>)
    ensures forall r | r in raws :: IsRaw(r) && (r, true) in entries
  {
    if entries == [] then [] else Extended(Trajectories(entries[..|entries| - 1]), entries[|entries| - 1])
  }

  /** A text without line breaks. */
  ghost predicate OneLine(x: string) {
    x != "" && '\n' !in x && '\r' !in x && '\U{2028}' !in x && '\U{2029}' !in x
  }

  /** A completed trajectory's file name: `trajectory-`, a text without line breaks, `-full.json`. */
  ghost predicate IsTrajectoryFile(name: Name) {
    exists x :: OneLine(x) && name == "trajectory-" + x + "-full.json"
  }

  lemma RawExactly(name: Name)
    ensures IsRaw(name) <==> IsTrajectoryFile(name)
  {
    if IsRaw(name) {
      var base := name[..|name| - 5];
      var x := base[11..|base| - 5];
      assert base == "trajectory-" + x + "-full";
      assert name == base + ".json" && "-full" + ".json" == "-full.json";
      assert IsLineBreak('\n') && IsLineBreak('\r') && IsLineBreak('\U{2028}') && IsLineBreak('\U{2029}');
      assert forall c | IsLineBreak(c) :: c !in x;
      assert OneLine(x) && name == "trajectory-" + x + "-full.json";
    }
    if IsTrajectoryFile(name) {
      var x :| OneLine(x) && name == "trajectory-" + x + "-full.json";
      TrajectoryFileIsRaw(name, x);
    }
  }

  lemma TrajectoryFileIsRaw(name: Name, x: string)
    requires OneLine(x) && name == "trajectory-" + x + "-full.json"
    ensures IsRaw(name)
  {
    var base := "trajectory-" + x + "-full";
    assert "-full.json" == "-full" + ".json";
    assert name == base + ".json";
    assert name[..|name| - 5] == base && name[|name| - 5..] == ".json";
    assert base[..11] == "trajectory-" && base[|base| - 5..] == "-full" && base[11..|base| - 5] == x;
  }

  /** A completed trajectory in a directory listing is a regular file of such a name. */
  ghost predicate IsCompleted(entry: (Name, bool)) {
    entry.1 && IsTrajectoryFile(entry.0)
  }

  ghost function CompletedAt(entries: seq<(Name, bool)>): set<nat> {
    set k: nat | k < |entries| && IsCompleted(entries[k])
  }

  /** Nothing completed is left out: the count is theirs, and unless in a dry run each is compressed and retired. */
  ghost predicate AllArchived(d: Disk, entries: seq<(Name, bool)>, dryRun: bool, report: Report) {
    && report.files == |CompletedAt(entries)|
    && (!dryRun ==>
          forall e | e in entries && IsCompleted(e) ::
            d.versions != [] && e.0 !in Current(d) && Visible(d, e.0 + ".gz").Some?)
  }

  lemma ExtendedExactly(done: seq<Name>, entry: (Name, bool))
    ensures Extended(done, entry) == if IsCompleted(entry) then done + [entry.0] else done
  {
    RawExactly(entry.0);
  }

  lemma {:induction false} TrajectoriesAreCounted(entries: seq<(Name, bool)>)
    ensures |Trajectories(entries)| == |CompletedAt(entries)|
  {
    if entries != [] {
      var n := |entries| - 1;
      TrajectoriesAreCounted(entries[..n]);
      ExtendedExactly(Trajectories(entries[..n]), entries[n]);
      assert CompletedAt(entries)
             == if IsCompleted(entries[n]) then CompletedAt(entries[..n]) + {n} else CompletedAt(entries[..n]);
    }
  }

  lemma {:induction false} TrajectoriesAreAll(entries: seq<(Name, bool)>, e: (Name, bool))
    requires e in entries && IsCompleted(e)
    ensures e.0 in Trajectories(entries)
  {
    var n := |entries| - 1;
    ExtendedExactly(Trajectories(entries[..n]), entries[n]);
    if e != entries[n] {
      TrajectoriesAreAll(entries[..n], e);
    }
  }

  lemma ReportedIsArchived(d0: Disk, d: Disk, entries: seq<(Name, bool)>, dryRun: bool, report: Report)
    requires Reports(d0, d, Trajectories(entries), dryRun, report)
    ensures AllArchived(d, entries, dryRun, report)
  {
    TrajectoriesAreCounted(entries);
    forall e | e in entries && IsCompleted(e) && !dryRun
      ensures e.0 !in Current(d) && Visible(d, e.0 + ".gz").Some?
    {
      TrajectoriesAreAll(entries, e);
      assert Gz(e.0) == e.0 + ".gz";
    }
  }

  function GzNames(raws: seq<Name>): (names: seq<Name>)
    ensures |names| == |raws| && forall i | 0 <= i < |raws| :: names[i] == Gz(raws[i])
  {
    seq(|raws|, i requires 0 <= i < |raws| => Gz(raws[i]))
  }

  /** All of `done` is retired, each behind a compressed file. */
  ghost predicate AllRetired(d: Disk, done: seq<Name>) {
    d.versions != []
    && forall r | r in done :: r !in Current(d) && Visible(d, Gz(r)).Some?
  }

  /** Archiving `r` touches no name that belongs to another raw file. */
  lemma OtherPairUntouched(before: Disk, d: Disk, q: Name, r: Name, unique: string)
    requires IsRaw(q) && IsRaw(r) && q != r && WellFormed(before) && before.inodes <= d.inodes
    requires OtherNamesKept(before, d, r, Gz(r) + "." + unique + ".tmp")
    ensures SameEntry(Current(d), Current(before), q)
    ensures Visible(d, Gz(q)) == Visible(before, Gz(q))
  {
    var temp := Gz(r) + "." + unique + ".tmp";
    assert IsTemp(temp);
    LastChars(q, temp);
    LastChars(r, q);
    LastChars(q, r);
    assert Gz(q)[..|q|] == q && Gz(r)[..|r|] == r;
    assert SameEntry(Current(d), Current(before), q);
    assert SameEntry(Current(d), Current(before), Gz(q));
    assert Current(before) in before.versions;
  }

  lemma RetiredStayRetired(before: Disk, d: Disk, done: seq<Name>, r: Name, unique: string)
    requires AllRetired(before, done) && IsRaw(r) && r !in done && forall q | q in done :: IsRaw(q)
    requires WellFormed(before) && before.inodes <= d.inodes
    requires OtherNamesKept(before, d, r, Gz(r) + "." + unique + ".tmp")
    ensures AllRetired(d, done)
    ensures forall q | q in done :: Visible(d, Gz(q)) == Visible(before, Gz(q))
  {
    forall q | q in done ensures q !in Current(d) && Visible(d, Gz(q)) == Visible(before, Gz(q)) {
      OtherPairUntouched(before, d, q, r, unique);
    }
  }

  /** A trajectory still listed in a kept disk has the bytes it had at the start. */
  lemma UnarchivedIsOriginal(d0: Disk, d: Disk, r: Name, gunzip: Bytes -> Option<Bytes>, faithful: bool)
    requires Kept(d0, d, gunzip, faithful) && IsRaw(r) && r in Current(d)
    ensures Visible(d, r) == Visible(d0, r)
  {
    assert Current(d) in d.versions && Current(d0) in d0.versions;
    assert PairOk(d0, d, Current(d), r, gunzip, faithful);
  }

  datatype Report = Report(files: nat, originalBytes: nat, compressedBytes: nat)

  /** The report after the trajectories `done`, the disk being now `d`. */
  ghost predicate Reports(d0: Disk, d: Disk, done: seq<Name>, dryRun: bool, report: Report) {
    && d0.versions != [] && d.versions != []
    && (dryRun ==> d == d0)
    && report.files == |done|
    && report.originalBytes == TotalSize(d0, done)
    && (!dryRun ==> AllRetired(d, done) && report.compressedBytes == TotalSize(d, GzNames(done)))
  }

  lemma ReportsNext(
      d0: Disk, before: Disk, d: Disk, done: seq<Name>, r: Name, unique: string, dryRun: bool, report: Report,
      original: nat, compressed: nat)
    requires Reports(d0, before, done, dryRun, report) && WellFormed(before) && before.inodes <= d.inodes
    requires IsRaw(r) && r !in done && forall q | q in done :: IsRaw(q)
    requires OtherNamesKept(before, d, r, Gz(r) + "." + unique + ".tmp") && (dryRun ==> d == before)
    requires Visible(d0, r).Some? && original == |Visible(d0, r).value|
    requires !dryRun ==> r !in Current(d) && Visible(d, Gz(r)).Some? && compressed == |Visible(d, Gz(r)).value|
    ensures Reports(d0, d, done + [r], dryRun,
                    Report(report.files + 1, report.originalBytes + original, report.compressedBytes + compressed))
  {
    assert (done + [r])[..|done|] == done;
    if !dryRun {
      RetiredStayRetired(before, d, done, r, unique);
      TotalSizeUnchanged(before, d, GzNames(done));
      assert GzNames(done + [r])[..|done|] == GzNames(done);
    }
  }

  ghost predicate EntryMismatch(d: Disk, e: (Name, bool), gunzip: Bytes -> Option<Bytes>) {
    e.1 && IsRaw(e.0) && Mismatch(d, e.0, gunzip)
  }

  /** One directory entry: skipped unless it is a trajectory's raw file. */
  method ArchiveEntry(fs: FileSystem, ghost d0: Disk, ghost done: seq<Name>, entry: (Name, bool), unique: string,
                      dryRun: bool, report: Report,
                      gzip: Bytes -> Bytes, gunzip: Bytes -> Option<Bytes>, digest: Bytes -> string,
                      ghost faithful: bool)
    returns (next: Option<Report>)
    requires fs.Valid() && Kept(d0, fs.disk, gunzip, faithful)
    requires Reports(d0, fs.disk, done, dryRun, report)
    requires entry.0 !in done && forall q | q in done :: IsRaw(q)
    requires forall a, b :: digest(a) == digest(b) ==> a == b
    requires faithful ==> forall b :: gunzip(gzip(b)) == Some(b)
    modifies fs
    ensures fs.Valid() && Kept(d0, fs.disk, gunzip, faithful)
    ensures old(fs.trace) <= fs.trace && TraceKept(fs.trace, |old(fs.trace)|, d0, gunzip, faithful)
    ensures dryRun ==> fs.disk == old(fs.disk)
    ensures next.Some? ==> Reports(d0, fs.disk, Extended(done, entry), dryRun, next.value)
    ensures old(fs.faults) <= fs.faults && (next.Some? ==> fs.faults == old(fs.faults))
    ensures next == None ==> fs.faults > old(fs.faults) || !faithful || EntryMismatch(d0, entry, gunzip)
  {
    var r := entry.0;
    if !entry.1 || !IsRaw(r) {
      return Some(report);
    }
    ghost var before := fs.disk;
    var one := ArchiveOne(fs, d0, r, unique, dryRun, gzip, gunzip, digest, faithful);
    if one.Failed? {
      return None;
    }
    UnarchivedIsOriginal(d0, before, r, gunzip, faithful);
    ReportsNext(d0, before, fs.disk, done, r, unique, dryRun, report, one.original, one.compressed);
    return Some(Report(report.files + 1, report.originalBytes + one.original, report.compressedBytes + one.compressed));
  }

  lemma TrajectoriesNext(entries: seq<(Name, bool)>, i: nat)
    requires i < |entries| && DistinctNames(entries)
    ensures Trajectories(entries[..i + 1]) == Extended(Trajectories(entries[..i]), entries[i])
    ensures entries[i].0 !in Trajectories(entries[..i])
  {
    assert entries[..i + 1][..i] == entries[..i];
  }

  /** A directory lists each name once. */
  predicate DistinctNames(entries: seq<(Name, bool)>) {
    forall i, j | 0 <= i < j < |entries| :: entries[i].0 != entries[j].0
  }

  ghost predicate AnyMismatch(d: Disk, entries: seq<(Name, bool)>, gunzip: Bytes -> Option<Bytes>) {
    exists e | e in entries :: EntryMismatch(d, e, gunzip)
  }

  /**
   Archive a run directory.  `unique` supplies the random part of each
   temporary name.  Whatever happens, and wherever a crash strikes, nothing is
   lost.  None is a failure, and has a cause: a call that failed, or (with a
   faithful compressor) a compressed file from before that is not its raw
   file's.
   */
  method CompactTrajectories(fs: FileSystem, entries: seq<(Name, bool)>, unique: nat -> string, dryRun: bool,
                             gzip: Bytes -> Bytes, gunzip: Bytes -> Option<Bytes>, digest: Bytes -> string,
                             ghost faithful: bool)
    returns (result: Option<Report>)
    requires fs.Valid()
    requires DistinctNames(entries)
    requires forall a, b :: digest(a) == digest(b) ==> a == b
    requires faithful ==> forall b :: gunzip(gzip(b)) == Some(b)
    modifies fs
    ensures fs.Valid() && Kept(old(fs.disk), fs.disk, gunzip, faithful)
    ensures old(fs.trace) <= fs.trace && TraceKept(fs.trace, |old(fs.trace)|, old(fs.disk), gunzip, faithful)
    ensures TwinsSynced(old(fs.disk)) ==> TwinsSynced(fs.disk)
    ensures result.Some? ==> Reports(old(fs.disk), fs.disk, Trajectories(entries), dryRun, result.value)
    ensures result.Some? ==> AllArchived(fs.disk, entries, dryRun, result.value)
    ensures dryRun ==> fs.disk == old(fs.disk)
    ensures result.Some? ==> fs.faults == old(fs.faults)
    ensures result == None ==>
              fs.faults > old(fs.faults) || !faithful || AnyMismatch(old(fs.disk), entries, gunzip)
  {
    ghost var d0 := fs.disk;
    KeptAtStart(d0, gunzip, faithful);
    var report := Report(0, 0, 0);
    for i := 0 to |entries|
      invariant fs.Valid() && Kept(d0, fs.disk, gunzip, faithful)
      invariant old(fs.trace) <= fs.trace && TraceKept(fs.trace, |old(fs.trace)|, d0, gunzip, faithful)
      invariant Reports(d0, fs.disk, Trajectories(entries[..i]), dryRun, report)
      invariant dryRun ==> fs.disk == d0
      invariant fs.faults == old(fs.faults)
    {
      TrajectoriesNext(entries, i);
      ghost var trace := fs.trace;
      var next := ArchiveEntry(fs, d0, Trajectories(entries[..i]), entries[i], unique(i), dryRun, report,
                               gzip, gunzip, digest, faithful);
      TraceKeptChains(old(fs.trace), trace, fs.trace, d0, gunzip, faithful);
      if next == None {
        KeptIsFitStart(d0, fs.disk, gunzip, faithful);
        return None;
      }
      report := next.value;
    }
    KeptIsFitStart(d0, fs.disk, gunzip, faithful);
    assert entries[..|entries|] == entries;
    ReportedIsArchived(d0, fs.disk, entries, dryRun, report);
    return Some(report);
  }
}
