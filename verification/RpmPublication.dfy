/**
 Successive publications of the RPM repository: each one fetches what is live,
 builds a new tree, carries the unexpired metadata over and goes live.  A
 publication that fails leaves the live deployment as it was.
 */
module RpmPublication {
  import opened Results
  import opened RpmMetadata
  import opened FetchRpmRepodata
  import opened RetainRpmRepodata

  function PublishResult(live: Deployment, build: Build, now: int, retention: int, digest: Bytes -> string)
    : Result<Deployment, Failure>
  {
    match FetchResult(live, now, retention, digest)
    case Err(f) => Err(f)
    case Ok(previous) => RetainResult(previous, build, now, retention, digest)
  }

  method Publish(live: Deployment, build: Build, now: int, retention: int, digest: Bytes -> string)
    returns (next: Deployment)
    ensures next == match PublishResult(live, build, now, retention, digest) case Ok(d) => d case Err(_) => live
  {
    var previous := Fetch(live, now, retention, digest);
    if previous.Err? {
      return live;
    }
    var result := Retain(previous.value, build, now, retention, digest);
    return if result.Ok? then result.value else live;
  }

  // ----------------------------------------------------- sound deployments

  /** repomd.xml names `p` with checksum `sha`. */
  ghost predicate Named(live: Deployment, p: string, sha: string) {
    live.repomd.Some?
    && exists n | n in live.repomd.value ::
         n.location == Some(LocationNode(Some(p))) && n.checksum.Some? && n.checksum.value.text == Some(sha)
  }

  /** The record protects `p` until at least `e`. */
  predicate Guards(r: Record, p: string, sha: string, e: int) {
    r.path == Some(p) && r.sha256 == Some(sha) && r.expiresAt.Some? && r.expiresAt.value >= e
  }

  ghost predicate Guarded(records: seq<Record>, p: string, sha: string, e: int) {
    exists r | r in records :: Guards(r, p, sha, e)
  }

  /** The manifest protects `p` until at least `e`. */
  ghost predicate Recorded(live: Deployment, p: string, sha: string, e: int) {
    live.manifest.Some? && live.manifest.value.Files? && Guarded(live.manifest.value.records, p, sha, e)
  }

  ghost predicate NodesSound(live: Deployment, digest: Bytes -> string)
    requires live.repomd.Some?
  {
    forall n | n in live.repomd.value ::
      && n.checksum.Some? && n.checksum.value.text.Some? && IsSha256(n.checksum.value.text.value)
      && n.location.Some? && n.location.value.href.Some? && IsPath(n.location.value.href.value)
      && Matches(live.objects, n.location.value.href.value, n.checksum.value.text.value, digest)
  }

  ghost predicate ManifestSound(live: Deployment, latest: int, digest: Bytes -> string) {
    live.manifest.Some? ==>
      && live.manifest.value.Files?
      && DistinctPaths(live.manifest.value.records)
      && forall r | r in live.manifest.value.records ::
           WellFormed(r) && r.expiresAt.value <= latest
           && Matches(live.objects, r.path.value, r.sha256.value, digest)
  }

  /** Nothing published, or every named and every recorded object is served with its checksum. */
  ghost predicate Sound(live: Deployment, latest: int, digest: Bytes -> string) {
    live.repomd.Some? ==>
      live.signed && NodesSound(live, digest) && ManifestSound(live, latest, digest)
  }

  // ----------------------------------------------------------- one fetch

  function Listed(live: Deployment): seq<Record> {
    if live.manifest.Some? && live.manifest.value.Files? then live.manifest.value.records else []
  }

  /** The candidates of a sound deployment are all servable: the next fetch never misses an object. */
  lemma FetchNeverMisses(live: Deployment, now: int, retention: int, latest: int, digest: Bytes -> string)
    requires Sound(live, latest, digest)
    ensures FetchResult(live, now, retention, digest).Ok?
    ensures live.repomd.Some? ==>
              Candidates(live, now + retention).Ok?
              && Collect(Candidates(live, now + retention).value, live.objects, now, digest).Ok?
  {
    if live.repomd.Some? {
      NodeRecordsExactly(live.repomd.value, now + retention);
      var candidates := Candidates(live, now + retention).value;
      forall i | 0 <= i < |candidates| ensures Servable(candidates[i], live.objects, now, digest) {
        if i < |Listed(live)| {
          assert candidates[i] in live.manifest.value.records;
        } else {
          assert live.repomd.value[i - |Listed(live)|] in live.repomd.value;
        }
      }
      CollectSucceedsExactly(candidates, live.objects, now, digest);
    }
  }

  /** The records a fetch protects; none when nothing is published or the fetch fails. */
  ghost function Protected(live: Deployment, now: int, retention: int, digest: Bytes -> string): map<string, Record> {
    if live.repomd == None then map[]
    else
      match Candidates(live, now + retention)
      case Err(_) => map[]
      case Ok(candidates) =>
        match Collect(candidates, live.objects, now, digest)
        case Err(_) => map[]
        case Ok(files) => files
  }

  /** Of two unexpired candidates for one path the later expires no sooner. */
  lemma LaterCandidateOutlives(
      live: Deployment, now: int, retention: int, latest: int, digest: Bytes -> string, i: nat, j: nat)
    requires Sound(live, latest, digest) && live.repomd.Some? && latest <= now + retention
    requires Candidates(live, now + retention).Ok?
    requires var c := Candidates(live, now + retention).value;
             i <= j < |c| && c[i].path == c[j].path
    ensures var c := Candidates(live, now + retention).value;
            c[i].expiresAt.Some? && c[j].expiresAt.Some? && c[i].expiresAt.value <= c[j].expiresAt.value
  {
    NodeRecordsExactly(live.repomd.value, now + retention);
    var c := Candidates(live, now + retention).value;
    assert forall k | 0 <= k < |Listed(live)| :: c[k] in live.manifest.value.records;
  }

  /** Candidate `i` promises the object at least until `e`. */
  ghost predicate CandidateFor(candidates: seq<Record>, i: nat, p: string, sha: string, e: int) {
    i < |candidates| && Guards(candidates[i], p, sha, e)
  }

  lemma RecordedIsCandidate(
      live: Deployment, now: int, retention: int, digest: Bytes -> string, p: string, sha: string, e: int)
    returns (i: nat)
    requires live.repomd.Some? && Candidates(live, now + retention).Ok? && Recorded(live, p, sha, e)
    ensures CandidateFor(Candidates(live, now + retention).value, i, p, sha, e)
  {
    var r :| r in live.manifest.value.records && Guards(r, p, sha, e);
    i :| 0 <= i < |Listed(live)| && Listed(live)[i] == r;
    assert Candidates(live, now + retention).value
           == Listed(live) + NodeRecords(live.repomd.value, now + retention).value;
    assert Candidates(live, now + retention).value[i] == r;
  }

  lemma NamedIsCandidate(
      live: Deployment, now: int, retention: int, latest: int, digest: Bytes -> string, p: string, sha: string)
    returns (i: nat)
    requires Sound(live, latest, digest) && Named(live, p, sha)
    ensures Candidates(live, now + retention).Ok?
    ensures CandidateFor(Candidates(live, now + retention).value, i, p, sha, now + retention)
  {
    NodeRecordsExactly(live.repomd.value, now + retention);
    var n :| n in live.repomd.value && n.location == Some(LocationNode(Some(p))) && n.checksum.value.text == Some(sha);
    var k :| 0 <= k < |live.repomd.value| && live.repomd.value[k] == n;
    i := |Listed(live)| + k;
  }

  /** A named or recorded object is among the candidates, unexpired for long enough. */
  lemma PromiseIsCandidate(
      live: Deployment, now: int, retention: int, latest: int, digest: Bytes -> string, p: string, sha: string, e: int)
    returns (i: nat)
    requires Sound(live, latest, digest) && live.repomd.Some?
    requires Named(live, p, sha) || Recorded(live, p, sha, e)
    requires e <= now + retention
    ensures Candidates(live, now + retention).Ok?
    ensures CandidateFor(Candidates(live, now + retention).value, i, p, sha, e)
  {
    NodeRecordsExactly(live.repomd.value, now + retention);
    if Recorded(live, p, sha, e) {
      i := RecordedIsCandidate(live, now, retention, digest, p, sha, e);
    } else {
      i := NamedIsCandidate(live, now, retention, latest, digest, p, sha);
    }
  }

  /** `files` protects the object at least until `e`. */
  ghost predicate Protects(files: map<string, Record>, p: string, sha: string, e: int) {
    p in files && Guards(files[p], p, sha, e)
  }

  /** Whatever a sound deployment names or records, it serves with that checksum. */
  lemma SoundMatches(live: Deployment, latest: int, digest: Bytes -> string, p: string, sha: string, e: int)
    requires Sound(live, latest, digest) && live.repomd.Some?
    requires Named(live, p, sha) || Recorded(live, p, sha, e)
    ensures Matches(live.objects, p, sha, digest)
  {
  }

  /** A named or recorded object is protected, with its checksum and for long enough. */
  lemma PromiseIsProtected(
      live: Deployment, now: int, retention: int, latest: int, digest: Bytes -> string, p: string, sha: string, e: int)
    requires Sound(live, latest, digest) && live.repomd.Some? && latest <= now + retention
    requires Named(live, p, sha) || Recorded(live, p, sha, e)
    requires now < e <= now + retention
    ensures Protects(Protected(live, now, retention, digest), p, sha, e)
  {
    SoundMatches(live, latest, digest, p, sha, e);
    FetchNeverMisses(live, now, retention, latest, digest);
    var i := PromiseIsCandidate(live, now, retention, latest, digest, p, sha, e);
    var c := Candidates(live, now + retention).value;
    CollectKeepsLast(c, live.objects, now, digest);
    var files := Protected(live, now, retention, digest);
    var k: nat :| LastFor(c, k, p, live.objects, now, digest) && c[k] == files[p];
    assert i <= k;
    LaterCandidateOutlives(live, now, retention, latest, digest, i, k);
  }

  // ------------------------------------------------------ one publication

  /** Records that are well formed, unexpired and answered for by `objects`. */
  ghost predicate FilesSound(
      files: map<string, Record>, objects: map<string, Bytes>, now: int, digest: Bytes -> string)
  {
    Keyed(files)
    && forall p | p in files ::
         WellFormed(files[p]) && files[p].expiresAt.value > now && Matches(objects, p, files[p].sha256.value, digest)
  }

  lemma ProtectedIsSound(live: Deployment, now: int, retention: int, digest: Bytes -> string)
    ensures FilesSound(Protected(live, now, retention, digest), live.objects, now, digest)
  {
    if live.repomd.Some? && Candidates(live, now + retention).Ok? {
      var c := Candidates(live, now + retention).value;
      if Collect(c, live.objects, now, digest).Ok? {
        CollectKeepsLast(c, live.objects, now, digest);
      }
    }
  }

  /** No object of `tree` is another than the protected one of that path. */
  ghost predicate NoClash(protected: map<string, Record>, tree: map<string, Bytes>, digest: Bytes -> string) {
    forall p | p in protected && p in tree :: Some(digest(tree[p])) == protected[p].sha256
  }

  /** The new build neither clashes with a protected object nor names one the new tree lacks. */
  ghost predicate BuildFits(
      protected: map<string, Record>, objects: map<string, Bytes>, build: Build, digest: Bytes -> string)
  {
    && NoClash(protected, build.objects, digest)
    && (forall n | n in build.nodes :: Addressed(n, Pick(objects, protected.Keys) + build.objects, digest))
  }

  lemma CarriableExactly(
      files: map<string, Record>, objects: map<string, Bytes>, tree: map<string, Bytes>, now: int,
      digest: Bytes -> string)
    requires FilesSound(files, objects, now, digest)
    ensures (forall r | r in Listing(files) :: Carriable(r, tree, Pick(objects, files.Keys), now, digest))
            <==> NoClash(files, tree, digest)
  {
    ListingIsExact(files);
    var previous := Pick(objects, files.Keys);
    if forall r | r in Listing(files) :: Carriable(r, tree, previous, now, digest) {
      forall p | p in files && p in tree ensures Some(digest(tree[p])) == files[p].sha256 {
        assert files[p] in Listing(files);
        assert Carriable(files[p], tree, previous, now, digest);
      }
    }
  }

  lemma CarriedFile(
      files: map<string, Record>, objects: map<string, Bytes>, build: Build, w: Work, now: int, digest: Bytes -> string,
      p: string)
    requires FilesSound(files, objects, now, digest)
    requires Carried(Work(map[], build.objects), Listing(files), w, Pick(objects, files.Keys), now, digest)
    ensures p in files <==> p in w.files
    ensures p in files ==> w.files[p] == files[p] && p in w.tree
  {
    ListingIsExact(files);
    if p in files {
      assert files[p] in Listing(files);
    }
    if p in w.files {
      assert w.files[p] in Listing(files);
    }
  }

  lemma CarriedFiles(
      files: map<string, Record>, objects: map<string, Bytes>, build: Build, w: Work, now: int, digest: Bytes -> string)
    requires FilesSound(files, objects, now, digest)
    requires Carried(Work(map[], build.objects), Listing(files), w, Pick(objects, files.Keys), now, digest)
    ensures w.files == files
    ensures forall p | p in files :: p in w.tree
  {
    forall p | p in files || p in w.files ensures p in files && p in w.files && w.files[p] == files[p] && p in w.tree {
      CarriedFile(files, objects, build, w, now, digest, p);
    }
  }

  lemma CarriedContents(
      files: map<string, Record>, objects: map<string, Bytes>, build: Build, w: Work, now: int, digest: Bytes -> string)
    requires FilesSound(files, objects, now, digest)
    requires Carried(Work(map[], build.objects), Listing(files), w, Pick(objects, files.Keys), now, digest)
    ensures w.files == files
    ensures w.tree == Pick(objects, files.Keys) + build.objects
  {
    CarriedFiles(files, objects, build, w, now, digest);
  }

  /** Carrying the protected records into the new build's tree. */
  lemma CarryProtected(
      files: map<string, Record>, objects: map<string, Bytes>, build: Build, now: int, digest: Bytes -> string)
    requires FilesSound(files, objects, now, digest)
    ensures var carried := Carry(Listing(files), Work(map[], build.objects), Pick(objects, files.Keys), now, digest);
            && (carried.Ok? <==> NoClash(files, build.objects, digest))
            && (carried.Ok? ==>
                  Backed(carried.value, digest)
                  && carried.value == Work(files, Pick(objects, files.Keys) + build.objects))
  {
    ListingIsExact(files);
    var records, start, previous := Listing(files), Work(map[], build.objects), Pick(objects, files.Keys);
    CarryExactly(records, start, previous, now, digest);
    CarriableExactly(files, objects, build.objects, now, digest);
    var carried := Carry(records, start, previous, now, digest);
    if carried.Ok? {
      CarriedContents(files, objects, build, carried.value, now, digest);
    }
  }

  /** The protected records, and the build's tree with the protected objects carried into it. */
  function CarriedInto(files: map<string, Record>, objects: map<string, Bytes>, build: Build): Work {
    Work(files, Pick(objects, files.Keys) + build.objects)
  }

  function RenewalOf(
      files: map<string, Record>, objects: map<string, Bytes>, build: Build, expiry: int, digest: Bytes -> string)
    : Result<Work, Failure>
  {
    Renew(build.nodes, CarriedInto(files, objects, build), expiry, digest)
  }

  /** `next` is what carrying `files` into the build and renewing what it names comes to. */
  ghost predicate CarriesThenRenews(
      next: Result<Deployment, Failure>, files: map<string, Record>, objects: map<string, Bytes>, build: Build,
      expiry: int, digest: Bytes -> string)
  {
    var fits, done := NoClash(files, build.objects, digest), RenewalOf(files, objects, build, expiry, digest);
    && (fits ==> Backed(CarriedInto(files, objects, build), digest))
    && (next.Ok? <==> fits && done.Ok?)
    && (next.Ok? ==>
          next.value == Deployment(done.value.tree, Some(build.nodes), true, Some(Files(Listing(done.value.files)))))
  }

  /** `next` is the build with the protected objects, its records renewed for what the build names. */
  ghost predicate Done(
      next: Deployment, files: map<string, Record>, objects: map<string, Bytes>, build: Build, expiry: int,
      digest: Bytes -> string)
  {
    var done := RenewalOf(files, objects, build, expiry, digest);
    && done.Ok? && Renewed(CarriedInto(files, objects, build), build.nodes, done.value, expiry, digest)
    && next == Deployment(done.value.tree, Some(build.nodes), true, Some(Files(Listing(done.value.files))))
  }

  lemma RenewalFitsExactly(
      next: Result<Deployment, Failure>, files: map<string, Record>, objects: map<string, Bytes>, build: Build,
      expiry: int, digest: Bytes -> string)
    requires CarriesThenRenews(next, files, objects, build, expiry, digest) && forall b :: IsSha256(digest(b))
    ensures next.Ok? <==> BuildFits(files, objects, build, digest)
    ensures next.Ok? ==> Done(next.value, files, objects, build, expiry, digest)
  {
    if NoClash(files, build.objects, digest) {
      RenewExactly(build.nodes, CarriedInto(files, objects, build), expiry, digest);
    }
  }

  /** A publication carries what is protected and then renews what the build names. */
  lemma PublishCarriesThenRenews(
      live: Deployment, build: Build, now: int, retention: int, latest: int, digest: Bytes -> string)
    requires Sound(live, latest, digest)
    ensures CarriesThenRenews(PublishResult(live, build, now, retention, digest),
                              Protected(live, now, retention, digest), live.objects, build, now + retention, digest)
  {
    FetchNeverMisses(live, now, retention, latest, digest);
    ProtectedIsSound(live, now, retention, digest);
    var files := Protected(live, now, retention, digest);
    CarryProtected(files, live.objects, build, now, digest);
    if live.repomd == None {
      assert CarriedInto(files, live.objects, build) == Work(map[], build.objects);
    }
  }

  /** From a sound deployment only the new build can make a publication fail. */
  lemma PublishSucceedsExactly(
      live: Deployment, build: Build, now: int, retention: int, latest: int, digest: Bytes -> string)
    requires Sound(live, latest, digest) && forall b :: IsSha256(digest(b))
    ensures PublishResult(live, build, now, retention, digest).Ok?
            <==> BuildFits(Protected(live, now, retention, digest), live.objects, build, digest)
    ensures PublishResult(live, build, now, retention, digest).Ok? ==>
              Done(PublishResult(live, build, now, retention, digest).value,
                   Protected(live, now, retention, digest), live.objects, build, now + retention, digest)
  {
    PublishCarriesThenRenews(live, build, now, retention, latest, digest);
    RenewalFitsExactly(PublishResult(live, build, now, retention, digest),
                       Protected(live, now, retention, digest), live.objects, build, now + retention, digest);
  }

  lemma NextIsDone(
      live: Deployment, build: Build, now: int, retention: int, latest: int, digest: Bytes -> string)
    requires Sound(live, latest, digest) && forall b :: IsSha256(digest(b))
    requires PublishResult(live, build, now, retention, digest).Ok?
    ensures Done(PublishResult(live, build, now, retention, digest).value,
                 Protected(live, now, retention, digest), live.objects, build, now + retention, digest)
  {
    PublishSucceedsExactly(live, build, now, retention, latest, digest);
  }

  /** Every record expires by then. */
  ghost predicate ExpireBy(files: map<string, Record>, latest: int) {
    forall p | p in files :: files[p].expiresAt.Some? && files[p].expiresAt.value <= latest
  }

  lemma DoneIsSound(
      next: Deployment, files: map<string, Record>, objects: map<string, Bytes>, build: Build, expiry: int,
      digest: Bytes -> string)
    requires Done(next, files, objects, build, expiry, digest) && ExpireBy(files, expiry)
    ensures Sound(next, expiry, digest)
  {
    var carried, done := CarriedInto(files, objects, build), RenewalOf(files, objects, build, expiry, digest).value;
    ListingIsExact(done.files);
    forall n | n in build.nodes ensures n.checksum.Some? && n.location.Some? && IsSha256(Text(n.checksum.value.text)) {
      assert Addressed(n, carried.tree, digest);
    }
    forall r | r in Listing(done.files)
      ensures WellFormed(r) && r.expiresAt.value <= expiry && Matches(done.tree, r.path.value, r.sha256.value, digest)
    {
      var p := r.path.value;
      assert p in done.files && done.files[p] == r;
      assert p in files ==> files[p].expiresAt.value <= expiry;
    }
  }

  lemma NewDeploymentIsSound(
      live: Deployment, build: Build, now: int, retention: int, latest: int, digest: Bytes -> string)
    requires Sound(live, latest, digest) && forall b :: IsSha256(digest(b))
    requires latest <= now + retention
    requires PublishResult(live, build, now, retention, digest).Ok?
    ensures Sound(PublishResult(live, build, now, retention, digest).value, now + retention, digest)
  {
    ProtectedExpiries(live, now, retention, latest, digest);
    NextIsDone(live, build, now, retention, latest, digest);
    DoneIsSound(PublishResult(live, build, now, retention, digest).value,
                Protected(live, now, retention, digest), live.objects, build, now + retention, digest);
  }

  lemma CandidateExpiries(live: Deployment, now: int, retention: int, latest: int, digest: Bytes -> string)
    requires Sound(live, latest, digest) && latest <= now + retention
    requires live.repomd.Some? && Candidates(live, now + retention).Ok?
    ensures forall r | r in Candidates(live, now + retention).value ::
              r.expiresAt.Some? && r.expiresAt.value <= now + retention
  {
    NodeRecordsExactly(live.repomd.value, now + retention);
    forall r | r in Candidates(live, now + retention).value
      ensures r.expiresAt.Some? && r.expiresAt.value <= now + retention
    {
      assert r in Listed(live) || r in NodeRecords(live.repomd.value, now + retention).value;
    }
  }

  lemma ProtectedExpiries(live: Deployment, now: int, retention: int, latest: int, digest: Bytes -> string)
    requires Sound(live, latest, digest) && latest <= now + retention
    ensures ExpireBy(Protected(live, now, retention, digest), now + retention)
  {
    if live.repomd.Some? {
      FetchNeverMisses(live, now, retention, latest, digest);
      CandidateExpiries(live, now, retention, latest, digest);
      CollectKeepsLast(Candidates(live, now + retention).value, live.objects, now, digest);
    }
  }

  /** A promise an earlier deployment made, by name or by record, is recorded by the next one. */
  lemma PublishKeepsPromise(
      live: Deployment, build: Build, now: int, retention: int, latest: int, digest: Bytes -> string,
      p: string, sha: string, e: int)
    requires Sound(live, latest, digest) && live.repomd.Some? && forall b :: IsSha256(digest(b))
    requires latest <= now + retention
    requires PublishResult(live, build, now, retention, digest).Ok?
    requires Named(live, p, sha) || Recorded(live, p, sha, e)
    requires now < e <= now + retention
    ensures Recorded(PublishResult(live, build, now, retention, digest).value, p, sha, e)
  {
    PromiseIsProtected(live, now, retention, latest, digest, p, sha, e);
    NextIsDone(live, build, now, retention, latest, digest);
    var files := Protected(live, now, retention, digest);
    var done := RenewalOf(files, live.objects, build, now + retention, digest).value;
    ListingIsExact(done.files);
    assert Guards(done.files[p], p, sha, e);
    assert done.files[p] in Listing(done.files);
  }

  ghost predicate PromisedAs(live: Deployment, p: string, sha: string, e: int) {
    Named(live, p, sha) || Recorded(live, p, sha, e)
  }

  /** The deployment names `p`, or records it until at least `e`. */
  ghost predicate Promised(live: Deployment, p: string, e: int) {
    live.repomd.Some? && exists sha :: PromisedAs(live, p, sha, e)
  }

  lemma CandidateIsPromise(
      live: Deployment, now: int, retention: int, latest: int, digest: Bytes -> string, p: string, k: nat)
    requires Sound(live, latest, digest) && live.repomd.Some? && Candidates(live, now + retention).Ok?
    requires var c := Candidates(live, now + retention).value;
             k < |c| && c[k].path == Some(p) && c[k].sha256.Some? && c[k].expiresAt.Some? && c[k].expiresAt.value > now
    ensures Promised(live, p, now + 1)
  {
    NodeRecordsExactly(live.repomd.value, now + retention);
    var r := Candidates(live, now + retention).value[k];
    if k < |Listed(live)| {
      assert r in live.manifest.value.records && Guards(r, p, r.sha256.value, now + 1);
      assert PromisedAs(live, p, r.sha256.value, now + 1);
    } else {
      var n := live.repomd.value[k - |Listed(live)|];
      assert n in live.repomd.value;
      assert PromisedAs(live, p, r.sha256.value, now + 1);
    }
  }

  lemma ProtectedExactly(live: Deployment, now: int, retention: int, latest: int, digest: Bytes -> string, p: string)
    requires Sound(live, latest, digest) && retention > 0 && latest <= now + retention
    ensures p in Protected(live, now, retention, digest) <==> Promised(live, p, now + 1)
  {
    if p in Protected(live, now, retention, digest) {
      var c := Candidates(live, now + retention).value;
      CollectKeepsLast(c, live.objects, now, digest);
      var k: nat :| LastFor(c, k, p, live.objects, now, digest) && c[k] == Protected(live, now, retention, digest)[p];
      CandidateIsPromise(live, now, retention, latest, digest, p, k);
    }
    if Promised(live, p, now + 1) {
      var sha :| PromisedAs(live, p, sha, now + 1);
      PromiseIsProtected(live, now, retention, latest, digest, p, sha, now + 1);
    }
  }

  /** What a publication leaves behind is the build and what was promised beyond now, and nothing else. */
  lemma NextServesExactly(
      live: Deployment, build: Build, now: int, retention: int, latest: int, digest: Bytes -> string, p: string)
    requires Sound(live, latest, digest) && forall b :: IsSha256(digest(b))
    requires retention > 0 && latest <= now + retention
    requires PublishResult(live, build, now, retention, digest).Ok?
    ensures var next := PublishResult(live, build, now, retention, digest).value;
            && (p in next.objects <==> p in build.objects || Promised(live, p, now + 1))
            && (p in next.objects ==>
                  next.objects[p] == if p in build.objects then build.objects[p]
                                     else if p in live.objects then live.objects[p] else [])
  {
    NextIsDone(live, build, now, retention, latest, digest);
    ProtectedIsSound(live, now, retention, digest);
    ProtectedExactly(live, now, retention, latest, digest, p);
    var files := Protected(live, now, retention, digest);
    var next := PublishResult(live, build, now, retention, digest).value;
    assert next.objects == Pick(live.objects, files.Keys) + build.objects;
    assert p in files ==> Matches(live.objects, p, files[p].sha256.value, digest);
  }

  // ---------------------------------------------------------------- runs

  /**
   Any number of publications with one retention period and a clock that never
   goes back, from nothing or from any sound deployment.
   */
  ghost predicate Run(
      lives: seq<Deployment>, builds: seq<Build>, times: seq<int>, retention: int, digest: Bytes -> string)
  {
    && |lives| == |builds| + 1 && |times| == |builds| && retention > 0
    && (forall b :: IsSha256(digest(b)))
    && (forall i, j | 0 <= i < j < |times| :: times[i] <= times[j])
    && (times != [] ==> Sound(lives[0], times[0] + retention, digest))
    && forall i | 0 <= i < |builds| ::
         lives[i + 1] == match PublishResult(lives[i], builds[i], times[i], retention, digest)
                         case Ok(d) => d
                         case Err(_) => lives[i]
  }

  lemma {:induction false} RunStaysSound(
      lives: seq<Deployment>, builds: seq<Build>, times: seq<int>, retention: int, digest: Bytes -> string, i: nat)
    requires Run(lives, builds, times, retention, digest) && i < |builds|
    ensures Sound(lives[i], times[i] + retention, digest)
    ensures Sound(lives[i + 1], times[i] + retention, digest)
  {
    if i > 0 {
      RunStaysSound(lives, builds, times, retention, digest, i - 1);
      assert times[i - 1] <= times[i];
    }
    if PublishResult(lives[i], builds[i], times[i], retention, digest).Ok? {
      NewDeploymentIsSound(lives[i], builds[i], times[i], retention, times[i] + retention, digest);
    }
  }

  /** No publication of a run fails for lack of a live object. */
  lemma EveryFetchSucceeds(
      lives: seq<Deployment>, builds: seq<Build>, times: seq<int>, retention: int, digest: Bytes -> string, i: nat)
    requires Run(lives, builds, times, retention, digest) && i < |builds|
    ensures FetchResult(lives[i], times[i], retention, digest).Ok?
    ensures PublishResult(lives[i], builds[i], times[i], retention, digest).Ok?
            <==> BuildFits(Protected(lives[i], times[i], retention, digest), lives[i].objects, builds[i], digest)
  {
    RunStaysSound(lives, builds, times, retention, digest, i);
    FetchNeverMisses(lives[i], times[i], retention, times[i] + retention, digest);
    PublishSucceedsExactly(lives[i], builds[i], times[i], retention, times[i] + retention, digest);
  }

  /** From publication `k` until `e`, an object named or recorded before it stays named or recorded. */
  lemma {:induction false} PromiseLasts(
      lives: seq<Deployment>, builds: seq<Build>, times: seq<int>, retention: int, digest: Bytes -> string,
      k: nat, j: nat, p: string, sha: string, e: int)
    requires Run(lives, builds, times, retention, digest) && k <= j < |builds|
    requires lives[k].repomd.Some? && (Named(lives[k], p, sha) || Recorded(lives[k], p, sha, e))
    requires times[j] < e <= times[k] + retention
    ensures lives[j + 1].repomd.Some? && (Named(lives[j + 1], p, sha) || Recorded(lives[j + 1], p, sha, e))
    ensures Matches(lives[j + 1].objects, p, sha, digest)
    decreases j
  {
    if k < j {
      assert times[j - 1] <= times[j] && times[k] <= times[j];
      PromiseLasts(lives, builds, times, retention, digest, k, j - 1, p, sha, e);
    }
    RunStaysSound(lives, builds, times, retention, digest, j);
    if PublishResult(lives[j], builds[j], times[j], retention, digest).Ok? {
      PublishKeepsPromise(lives[j], builds[j], times[j], retention, times[j] + retention, digest, p, sha, e);
    }
    SoundMatches(lives[j + 1], times[j] + retention, digest, p, sha, e);
  }

  /**
   What a client may rely on: an object named by the repomd.xml live just
   before publication `k` is served, with its checksum, after every publication
   within the retention period.
   */
  lemma NamedObjectsStayServed(
      lives: seq<Deployment>, builds: seq<Build>, times: seq<int>, retention: int, digest: Bytes -> string,
      k: nat, j: nat, p: string, sha: string)
    requires Run(lives, builds, times, retention, digest) && k <= j < |builds|
    requires Named(lives[k], p, sha) && times[j] < times[k] + retention
    ensures Matches(lives[j + 1].objects, p, sha, digest)
  {
    PromiseLasts(lives, builds, times, retention, digest, k, j, p, sha, times[k] + retention);
  }

  /** While it is unexpired, a record survives the next publication and its expiry does not shrink. */
  lemma ExpiriesNeverShrink(
      lives: seq<Deployment>, builds: seq<Build>, times: seq<int>, retention: int, digest: Bytes -> string,
      k: nat, r: Record)
    requires Run(lives, builds, times, retention, digest) && k < |builds|
    requires lives[k].repomd.Some? && lives[k].manifest.Some? && lives[k].manifest.value.Files?
    requires r in lives[k].manifest.value.records
    requires PublishResult(lives[k], builds[k], times[k], retention, digest).Ok?
    ensures WellFormed(r)
    ensures r.expiresAt.value > times[k] ==>
              Recorded(lives[k + 1], r.path.value, r.sha256.value, r.expiresAt.value)
  {
    RunStaysSound(lives, builds, times, retention, digest, k);
    if r.expiresAt.value > times[k] {
      PublishKeepsPromise(lives[k], builds[k], times[k], retention, times[k] + retention, digest,
                          r.path.value, r.sha256.value, r.expiresAt.value);
    }
  }
}
