/**
 The archival of completed trajectories over all stored runs: which run
 directories it touches, and what a failure leaves behind.  Every run has a
 directory of its own.
 */
module SystemTestRuns {
  import opened Results
  import opened CrashFs
  import opened SystemTestStore

  /**
   A listed run: its directory under the default root, with its files, and
   where its artifacts are written.  `listing` is what reading the directory
   answers; none if that fails.
   */
  datatype Run = Run(dir: string, artifactDir: string, files: FileSystem, listing: Option<seq<(Name, bool)>>)

  /** A directory at one point: its disk, all disks before it, and how many calls have failed. */
  datatype Point = Point(disk: Disk, trace: seq<Disk>, faults: nat)

  ghost function At(fs: FileSystem): Point
    reads fs
  {
    Point(fs.disk, fs.trace, fs.faults)
  }

  /** All the directories at one point. */
  ghost function Points(runs: seq<Run>): (points: seq<Point>)
    reads set i | 0 <= i < |runs| :: runs[i].files
    ensures |points| == |runs| && forall i | 0 <= i < |runs| :: points[i] == At(runs[i].files)
  {
    seq(|runs|, i requires 0 <= i < |runs| reads set k | 0 <= k < |runs| :: runs[k].files => At(runs[i].files))
  }

  /** The artifacts are in the run's own directory, and the run has written its summary. */
  ghost predicate Completed(run: Run, d: Disk, resolve: string -> string) {
    resolve(run.artifactDir) == resolve(run.dir) && d.versions != [] && "summary.json" in Current(d)
  }

  predicate Readable(run: Run) {
    run.listing.Some? ==> DistinctNames(run.listing.value)
  }

  /** Between the two points nothing is lost at any time. */
  ghost predicate Safe(start: Point, end: Point, gunzip: Bytes -> Option<Bytes>, faithful: bool) {
    && Kept(start.disk, end.disk, gunzip, faithful)
    && start.trace <= end.trace && TraceKept(end.trace, |start.trace|, start.disk, gunzip, faithful)
    && (TwinsSynced(start.disk) ==> TwinsSynced(end.disk))
  }

  lemma SafeAtStart(start: Point, gunzip: Bytes -> Option<Bytes>, faithful: bool)
    requires WellFormed(start.disk)
    ensures Safe(start, start, gunzip, faithful)
  {
    KeptAtStart(start.disk, gunzip, faithful);
  }

  function Plus(a: Report, b: Report): Report {
    Report(a.files + b.files, a.originalBytes + b.originalBytes, a.compressedBytes + b.compressedBytes)
  }

  function Total(parts: seq<Report>): Report {
    if parts == [] then Report(0, 0, 0) else Plus(Total(parts[..|parts| - 1]), parts[|parts| - 1])
  }

  /** Files and bytes are added up, run by run. */
  lemma TotalAdds(parts: seq<Report>, part: Report)
    ensures Total([]) == Report(0, 0, 0)
    ensures var before, after := Total(parts), Total(parts + [part]);
            && after.files == before.files + part.files
            && after.originalBytes == before.originalBytes + part.originalBytes
            && after.compressedBytes == before.compressedBytes + part.compressedBytes
  {
    assert (parts + [part])[..|parts|] == parts;
  }

  /**
   What the loop does to one run: a completed one is archived and adds its
   report, any other is left exactly as it was.
   */
  ghost predicate Handled(
      run: Run, start: Point, end: Point, part: Report, resolve: string -> string, dryRun: bool)
  {
    if Completed(run, start.disk, resolve) then
      run.listing.Some? && Reports(start.disk, end.disk, Trajectories(run.listing.value), dryRun, part)
      && AllArchived(end.disk, run.listing.value, dryRun, part) && end.faults == start.faults
    else end == start && part == Report(0, 0, 0)
  }

  /** Why a run fails: its directory cannot be read, a call failed, or a compressed file was not its raw file's. */
  ghost predicate Failed(
      run: Run, start: Point, end: Point, resolve: string -> string, dryRun: bool, gunzip: Bytes -> Option<Bytes>,
      faithful: bool)
  {
    && Completed(run, start.disk, resolve) && (dryRun ==> end.disk == start.disk)
    && (run.listing == None || end.faults > start.faults || !faithful
        || AnyMismatch(start.disk, run.listing.value, gunzip))
  }

  /** The body of the loop over the runs. */
  method CompactRun(run: Run, resolve: string -> string, unique: nat -> string, dryRun: bool,
                    gzip: Bytes -> Bytes, gunzip: Bytes -> Option<Bytes>, digest: Bytes -> string,
                    ghost faithful: bool)
    returns (part: Option<Report>)
    requires run.files.Valid() && Readable(run)
    requires forall a, b :: digest(a) == digest(b) ==> a == b
    requires faithful ==> forall b :: gunzip(gzip(b)) == Some(b)
    modifies run.files
    ensures run.files.Valid() && Safe(old(At(run.files)), At(run.files), gunzip, faithful)
    ensures part.Some? ==> Handled(run, old(At(run.files)), At(run.files), part.value, resolve, dryRun)
    ensures part == None ==> Failed(run, old(At(run.files)), At(run.files), resolve, dryRun, gunzip, faithful)
  {
    SafeAtStart(At(run.files), gunzip, faithful);
    var names := if run.files.disk.versions == [] then {} else Current(run.files.disk).Keys;
    if resolve(run.artifactDir) != resolve(run.dir) || "summary.json" !in names {
      return Some(Report(0, 0, 0));
    }
    if run.listing == None {
      return None;
    }
    part := CompactTrajectories(run.files, run.listing.value, unique, dryRun, gzip, gunzip, digest, faithful);
  }

  /** Each run has a directory of its own, in a valid state. */
  ghost predicate Apart(runs: seq<Run>)
    reads set i | 0 <= i < |runs| :: runs[i].files
  {
    && (forall i | 0 <= i < |runs| :: runs[i].files.Valid() && Readable(runs[i]))
    && forall i, j | 0 <= i < j < |runs| :: runs[i].files != runs[j].files
  }

  /** One turn of the loop: of all directories only the turn's own can change. */
  method CompactNth(runs: seq<Run>, i: nat, resolve: string -> string, unique: nat -> string, dryRun: bool,
                    gzip: Bytes -> Bytes, gunzip: Bytes -> Option<Bytes>, digest: Bytes -> string,
                    ghost faithful: bool)
    returns (part: Option<Report>, ghost end: Point)
    requires Apart(runs) && i < |runs|
    requires forall a, b :: digest(a) == digest(b) ==> a == b
    requires faithful ==> forall b :: gunzip(gzip(b)) == Some(b)
    modifies runs[i].files
    ensures Apart(runs) && Points(runs) == old(Points(runs))[i := end]
    ensures Safe(old(Points(runs))[i], end, gunzip, faithful)
    ensures part.Some? ==> Handled(runs[i], old(Points(runs))[i], end, part.value, resolve, dryRun)
    ensures part == None ==> Failed(runs[i], old(Points(runs))[i], end, resolve, dryRun, gunzip, faithful)
  {
    ghost var starts := Points(runs);
    part := CompactRun(runs[i], resolve, unique, dryRun, gzip, gunzip, digest, faithful);
    end := At(runs[i].files);
    forall j | 0 <= j < |runs| && j != i ensures Points(runs)[j] == starts[j] && runs[j].files.Valid() {
      assert runs[j].files != runs[i].files;
    }
  }

  /** In no directory anything is lost. */
  ghost predicate AllSafe(starts: seq<Point>, ends: seq<Point>, gunzip: Bytes -> Option<Bytes>, faithful: bool) {
    |starts| == |ends| && forall i | 0 <= i < |starts| :: Safe(starts[i], ends[i], gunzip, faithful)
  }

  /** The first runs are done and have reported `parts`; from `next` on nothing was touched. */
  ghost predicate AllHandled(
      runs: seq<Run>, starts: seq<Point>, ends: seq<Point>, parts: seq<Report>, next: nat, resolve: string -> string,
      dryRun: bool)
  {
    && |runs| == |starts| == |ends| && |parts| <= |runs|
    && (forall i | 0 <= i < |parts| :: Handled(runs[i], starts[i], ends[i], parts[i], resolve, dryRun))
    && (forall i | next <= i < |runs| :: ends[i] == starts[i])
  }

  lemma AllSafeAtStart(runs: seq<Run>, gunzip: Bytes -> Option<Bytes>, faithful: bool)
    requires Apart(runs)
    ensures AllSafe(Points(runs), Points(runs), gunzip, faithful)
  {
    forall i | 0 <= i < |runs| ensures Safe(Points(runs)[i], Points(runs)[i], gunzip, faithful) {
      SafeAtStart(At(runs[i].files), gunzip, faithful);
    }
  }

  lemma AllSafeNext(
      starts: seq<Point>, ends: seq<Point>, i: nat, end: Point, gunzip: Bytes -> Option<Bytes>, faithful: bool)
    requires AllSafe(starts, ends, gunzip, faithful) && i < |starts| && Safe(starts[i], end, gunzip, faithful)
    ensures AllSafe(starts, ends[i := end], gunzip, faithful)
  {
  }

  lemma AllHandledNext(
      runs: seq<Run>, starts: seq<Point>, ends: seq<Point>, parts: seq<Report>, end: Point, part: Report,
      resolve: string -> string, dryRun: bool)
    requires AllHandled(runs, starts, ends, parts, |parts|, resolve, dryRun) && |parts| < |runs|
    requires Handled(runs[|parts|], starts[|parts|], end, part, resolve, dryRun)
    ensures AllHandled(runs, starts, ends[|parts| := end], parts + [part], |parts| + 1, resolve, dryRun)
  {
  }

  /** Before the turn of run `|parts|`. */
  ghost predicate Progress(
      runs: seq<Run>, starts: seq<Point>, ends: seq<Point>, parts: seq<Report>, total: Report,
      resolve: string -> string, dryRun: bool, gunzip: Bytes -> Option<Bytes>, faithful: bool)
  {
    && AllSafe(starts, ends, gunzip, faithful)
    && AllHandled(runs, starts, ends, parts, |parts|, resolve, dryRun)
    && total == Total(parts)
  }

  lemma ProgressNext(
      runs: seq<Run>, starts: seq<Point>, ends: seq<Point>, parts: seq<Report>, total: Report, end: Point, part: Report,
      resolve: string -> string, dryRun: bool, gunzip: Bytes -> Option<Bytes>, faithful: bool)
    requires Progress(runs, starts, ends, parts, total, resolve, dryRun, gunzip, faithful) && |parts| < |runs|
    requires Safe(starts[|parts|], end, gunzip, faithful)
    requires Handled(runs[|parts|], starts[|parts|], end, part, resolve, dryRun)
    ensures Progress(runs, starts, ends[|parts| := end], parts + [part], Plus(total, part), resolve, dryRun, gunzip,
                     faithful)
  {
    AllSafeNext(starts, ends, |parts|, end, gunzip, faithful);
    AllHandledNext(runs, starts, ends, parts, end, part, resolve, dryRun);
    TotalAdds(parts, part);
  }

  lemma ProgressEnds(
      runs: seq<Run>, starts: seq<Point>, ends: seq<Point>, parts: seq<Report>, total: Report, end: Point,
      resolve: string -> string, dryRun: bool, gunzip: Bytes -> Option<Bytes>, faithful: bool)
    requires Progress(runs, starts, ends, parts, total, resolve, dryRun, gunzip, faithful) && |parts| < |runs|
    requires Safe(starts[|parts|], end, gunzip, faithful)
    ensures AllSafe(starts, ends[|parts| := end], gunzip, faithful)
    ensures AllHandled(runs, starts, ends[|parts| := end], parts, |parts| + 1, resolve, dryRun)
  {
    AllSafeNext(starts, ends, |parts|, end, gunzip, faithful);
  }

  /**
   The loop over the runs, in the order listed.  It touches the directories of
   completed runs under the default root only; a run that fails ends it, with
   the runs before it archived and those after it untouched; and whatever
   happens nothing is lost anywhere.  `parts` are the reports of the runs done.
   */
  method CompactCompletedRuns(runs: seq<Run>, resolve: string -> string, unique: (nat, nat) -> string, dryRun: bool,
                              gzip: Bytes -> Bytes, gunzip: Bytes -> Option<Bytes>, digest: Bytes -> string,
                              ghost faithful: bool)
    returns (result: Option<Report>, ghost parts: seq<Report>)
    requires Apart(runs)
    requires forall a, b :: digest(a) == digest(b) ==> a == b
    requires faithful ==> forall b :: gunzip(gzip(b)) == Some(b)
    modifies set i | 0 <= i < |runs| :: runs[i].files
    ensures AllSafe(old(Points(runs)), Points(runs), gunzip, faithful)
    ensures AllHandled(runs, old(Points(runs)), Points(runs), parts, |parts| + 1, resolve, dryRun)
    ensures result.Some? ==> |parts| == |runs| && result.value == Total(parts)
    ensures result == None ==>
              |parts| < |runs|
              && Failed(runs[|parts|], old(Points(runs))[|parts|], Points(runs)[|parts|], resolve, dryRun, gunzip,
                        faithful)
  {
    var total := Report(0, 0, 0);
    parts := [];
    ghost var starts, ends := Points(runs), Points(runs);
    AllSafeAtStart(runs, gunzip, faithful);
    for i := 0 to |runs|
      invariant |parts| == i && Apart(runs) && ends == Points(runs)
      invariant Progress(runs, starts, ends, parts, total, resolve, dryRun, gunzip, faithful)
    {
      assert ends[i] == starts[i];
      var part, end := CompactNth(runs, i, resolve, (j: nat) => unique(i, j), dryRun, gzip, gunzip, digest,
                                  faithful);
      if part == None {
        ProgressEnds(runs, starts, ends, parts, total, end, resolve, dryRun, gunzip, faithful);
        return None, parts;
      }
      ProgressNext(runs, starts, ends, parts, total, end, part.value, resolve, dryRun, gunzip, faithful);
      ends := ends[i := end];
      parts := parts + [part.value];
      total := Plus(total, part.value);
    }
    return Some(total), parts;
  }
}
