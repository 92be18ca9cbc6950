/**
 Publications whose fetch may read repomd.xml and the manifest from different,
 adjacent deployments, as a content network serves them.  At most one of the
 two documents is stale; objects are never stale, since a path names the
 digest of what it holds.
 */
module RpmMixedFetch {
  import opened Results
  import opened RpmMetadata
  import opened FetchRpmRepodata
  import opened RetainRpmRepodata
  import opened RpmPublication

  /** The newest deployment and the one it replaced. */
  datatype Era = Era(older: Deployment, newer: Deployment)

  /** Which document, if any, the fetch gets from the older deployment. */
  datatype Mix = Fresh | StaleRepomd | StaleManifest

  /** What the fetch sees, with `served` for the objects. */
  function View(era: Era, mix: Mix, served: map<string, Bytes>): Deployment {
    var named, recorded := if mix.StaleRepomd? then era.older else era.newer,
                           if mix.StaleManifest? then era.older else era.newer;
    Deployment(served, named.repomd, named.signed, recorded.manifest)
  }

  function NextEra(
      era: Era, mix: Mix, served: map<string, Bytes>, build: Build, now: int, retention: int, digest: Bytes -> string)
    : Era
  {
    match PublishResult(View(era, mix, served), build, now, retention, digest)
    case Ok(next) => Era(era.newer, next)
    case Err(_) => era
  }

  /** Every object at a content-addressed path has the digest in its path. */
  ghost predicate Addressing(objects: map<string, Bytes>, digest: Bytes -> string) {
    forall p | p in objects && IsPath(p) :: digest(objects[p]) == p[9..73]
  }

  /** The objects of both deployments, perhaps more. */
  ghost predicate Serves(served: map<string, Bytes>, era: Era, digest: Bytes -> string) {
    Addressing(served, digest) && era.older.objects.Keys <= served.Keys && era.newer.objects.Keys <= served.Keys
  }

  ghost predicate EraSound(era: Era, latest: int, digest: Bytes -> string) {
    && Sound(era.older, latest, digest) && Sound(era.newer, latest, digest)
    && Addressing(era.older.objects, digest) && Addressing(era.newer.objects, digest)
    && (era.older.repomd.Some? ==> era.newer.repomd.Some?)
  }

  /** The fetch can be given this mix of this era. */
  ghost predicate Possible(era: Era, mix: Mix, served: map<string, Bytes>, digest: Bytes -> string) {
    Serves(served, era, digest) && (mix != Fresh ==> era.older.repomd.Some?)
  }

  lemma ServedMatches(
      served: map<string, Bytes>, objects: map<string, Bytes>, digest: Bytes -> string, p: string, sha: string)
    requires Addressing(served, digest) && Addressing(objects, digest) && objects.Keys <= served.Keys
    requires IsPath(p) && Matches(objects, p, sha, digest)
    ensures Matches(served, p, sha, digest)
  {
    assert p in objects.Keys;
  }

  lemma ServedNodes(d: Deployment, served: map<string, Bytes>, latest: int, digest: Bytes -> string)
    requires Sound(d, latest, digest) && d.repomd.Some?
    requires Addressing(served, digest) && Addressing(d.objects, digest) && d.objects.Keys <= served.Keys
    ensures NodesSound(Deployment(served, d.repomd, true, None), digest)
    ensures ManifestSound(Deployment(served, d.repomd, true, d.manifest), latest, digest)
  {
    forall n | n in d.repomd.value
      ensures Matches(served, n.location.value.href.value, n.checksum.value.text.value, digest)
    {
      ServedMatches(served, d.objects, digest, n.location.value.href.value, n.checksum.value.text.value);
    }
    forall r | d.manifest.Some? && r in d.manifest.value.records
      ensures Matches(served, r.path.value, r.sha256.value, digest)
    {
      ServedMatches(served, d.objects, digest, r.path.value, r.sha256.value);
    }
  }

  /** Whatever mix the fetch is given, it is a sound deployment to fetch from. */
  lemma ViewIsSound(era: Era, mix: Mix, served: map<string, Bytes>, latest: int, digest: Bytes -> string)
    requires EraSound(era, latest, digest) && Possible(era, mix, served, digest)
    ensures Sound(View(era, mix, served), latest, digest)
  {
    if era.newer.repomd.Some? {
      ServedNodes(era.newer, served, latest, digest);
      if era.older.repomd.Some? {
        ServedNodes(era.older, served, latest, digest);
      }
    }
  }

  lemma NextIsAddressing(
      live: Deployment, build: Build, now: int, retention: int, latest: int, digest: Bytes -> string)
    requires Sound(live, latest, digest) && forall b :: IsSha256(digest(b))
    requires retention > 0 && latest <= now + retention
    requires Addressing(live.objects, digest) && Addressing(build.objects, digest)
    requires PublishResult(live, build, now, retention, digest).Ok?
    ensures Addressing(PublishResult(live, build, now, retention, digest).value.objects, digest)
  {
    var next := PublishResult(live, build, now, retention, digest).value;
    forall p | p in next.objects && IsPath(p) ensures digest(next.objects[p]) == p[9..73] {
      NextServesExactly(live, build, now, retention, latest, digest, p);
    }
  }

  lemma NextEraIsSound(
      era: Era, mix: Mix, served: map<string, Bytes>, build: Build, now: int, retention: int, latest: int,
      digest: Bytes -> string)
    requires EraSound(era, latest, digest) && Possible(era, mix, served, digest) && Addressing(build.objects, digest)
    requires retention > 0 && latest <= now + retention && forall b :: IsSha256(digest(b))
    ensures EraSound(NextEra(era, mix, served, build, now, retention, digest), now + retention, digest)
  {
    var live := View(era, mix, served);
    ViewIsSound(era, mix, served, latest, digest);
    if PublishResult(live, build, now, retention, digest).Ok? {
      NewDeploymentIsSound(live, build, now, retention, latest, digest);
      NextIsAddressing(live, build, now, retention, latest, digest);
    }
  }

  // ------------------------------------------------------------- promises

  /** Whatever mix the next fetch is given, it sees the promise of this object until `e`. */
  ghost predicate Kept(era: Era, p: string, sha: string, e: int) {
    && era.newer.repomd.Some? && Recorded(era.newer, p, sha, e)
    && (Recorded(era.older, p, sha, e) || Named(era.newer, p, sha))
  }

  lemma KeptIsSeen(era: Era, mix: Mix, served: map<string, Bytes>, p: string, sha: string, e: int)
    requires Kept(era, p, sha, e) && (mix != Fresh ==> era.older.repomd.Some?)
    ensures View(era, mix, served).repomd.Some?
    ensures Named(View(era, mix, served), p, sha) || Recorded(View(era, mix, served), p, sha, e)
  {
  }

  lemma MixedPublishKeeps(
      era: Era, mix: Mix, served: map<string, Bytes>, build: Build, now: int, retention: int, latest: int,
      digest: Bytes -> string, p: string, sha: string, e: int)
    requires EraSound(era, latest, digest) && Possible(era, mix, served, digest)
    requires retention > 0 && latest <= now + retention && forall b :: IsSha256(digest(b))
    requires Kept(era, p, sha, e) && now < e <= now + retention
    ensures Kept(NextEra(era, mix, served, build, now, retention, digest), p, sha, e)
  {
    var live := View(era, mix, served);
    ViewIsSound(era, mix, served, latest, digest);
    KeptIsSeen(era, mix, served, p, sha, e);
    if PublishResult(live, build, now, retention, digest).Ok? {
      PublishKeepsPromise(live, build, now, retention, latest, digest, p, sha, e);
    }
  }

  /** What a publication names it records for the whole retention, so the promise is safe from then on. */
  lemma PublishedNamesAreKept(
      era: Era, mix: Mix, served: map<string, Bytes>, build: Build, now: int, retention: int, latest: int,
      digest: Bytes -> string, p: string, sha: string)
    requires EraSound(era, latest, digest) && Possible(era, mix, served, digest) && forall b :: IsSha256(digest(b))
    requires PublishResult(View(era, mix, served), build, now, retention, digest).Ok?
    requires Named(NextEra(era, mix, served, build, now, retention, digest).newer, p, sha)
    ensures Kept(NextEra(era, mix, served, build, now, retention, digest), p, sha, now + retention)
  {
    ViewIsSound(era, mix, served, latest, digest);
    NamedIsRecorded(View(era, mix, served), build, now, retention, latest, digest, p, sha);
  }

  lemma NamedIsRecorded(
      live: Deployment, build: Build, now: int, retention: int, latest: int, digest: Bytes -> string,
      p: string, sha: string)
    requires Sound(live, latest, digest) && forall b :: IsSha256(digest(b))
    requires PublishResult(live, build, now, retention, digest).Ok?
    requires Named(PublishResult(live, build, now, retention, digest).value, p, sha)
    ensures Recorded(PublishResult(live, build, now, retention, digest).value, p, sha, now + retention)
  {
    NextIsDone(live, build, now, retention, latest, digest);
    var files := Protected(live, now, retention, digest);
    var done := RenewalOf(files, live.objects, build, now + retention, digest).value;
    ListingIsExact(done.files);
    var n :| n in build.nodes && n.location == Some(LocationNode(Some(p)))
             && n.checksum.Some? && n.checksum.value.text == Some(sha);
    assert Guards(done.files[p], p, sha, now + retention);
    assert done.files[p] in Listing(done.files);
  }

  /**
   What a publication keeps: an object outlives it exactly if the build has it,
   the repomd.xml that was read names it, or the manifest that was read records
   it beyond now.  With a stale manifest that leaves out an object which only
   the newer manifest records so long.
   */
  lemma MixedServedExactly(
      era: Era, mix: Mix, served: map<string, Bytes>, build: Build, now: int, retention: int, latest: int,
      digest: Bytes -> string, p: string)
    requires EraSound(era, latest, digest) && Possible(era, mix, served, digest)
    requires retention > 0 && latest <= now + retention && forall b :: IsSha256(digest(b))
    requires PublishResult(View(era, mix, served), build, now, retention, digest).Ok?
    ensures p in NextEra(era, mix, served, build, now, retention, digest).newer.objects
            <==> p in build.objects || Promised(View(era, mix, served), p, now + 1)
  {
    ViewIsSound(era, mix, served, latest, digest);
    NextServesExactly(View(era, mix, served), build, now, retention, latest, digest, p);
  }

  // ----------------------------------------------------------------- runs

  /** Any number of publications, each given any mix of its era, with a clock that never goes back. */
  ghost predicate MixedRun(
      eras: seq<Era>, mixes: seq<Mix>, served: seq<map<string, Bytes>>, builds: seq<Build>, times: seq<int>,
      retention: int, digest: Bytes -> string)
  {
    && |eras| == |builds| + 1 && |mixes| == |served| == |times| == |builds| && retention > 0
    && (forall b :: IsSha256(digest(b)))
    && (forall i, j | 0 <= i < j < |times| :: times[i] <= times[j])
    && (times != [] ==> EraSound(eras[0], times[0] + retention, digest))
    && forall i | 0 <= i < |builds| ::
         Addressing(builds[i].objects, digest) && Possible(eras[i], mixes[i], served[i], digest)
         && eras[i + 1] == NextEra(eras[i], mixes[i], served[i], builds[i], times[i], retention, digest)
  }

  lemma {:induction false} MixedRunStaysSound(
      eras: seq<Era>, mixes: seq<Mix>, served: seq<map<string, Bytes>>, builds: seq<Build>, times: seq<int>,
      retention: int, digest: Bytes -> string, i: nat)
    requires MixedRun(eras, mixes, served, builds, times, retention, digest) && i < |builds|
    ensures EraSound(eras[i], times[i] + retention, digest)
    ensures EraSound(eras[i + 1], times[i] + retention, digest)
  {
    if i > 0 {
      MixedRunStaysSound(eras, mixes, served, builds, times, retention, digest, i - 1);
      assert times[i - 1] <= times[i];
    }
    NextEraIsSound(eras[i], mixes[i], served[i], builds[i], times[i], retention, times[i] + retention, digest);
  }

  /** However the documents are mixed no fetch ever fails: only a faulty build stops a publication. */
  lemma EveryMixedFetchSucceeds(
      eras: seq<Era>, mixes: seq<Mix>, served: seq<map<string, Bytes>>, builds: seq<Build>, times: seq<int>,
      retention: int, digest: Bytes -> string, i: nat)
    requires MixedRun(eras, mixes, served, builds, times, retention, digest) && i < |builds|
    ensures var live := View(eras[i], mixes[i], served[i]);
            && FetchResult(live, times[i], retention, digest).Ok?
            && (PublishResult(live, builds[i], times[i], retention, digest).Ok?
                <==> BuildFits(Protected(live, times[i], retention, digest), live.objects, builds[i], digest))
  {
    MixedRunStaysSound(eras, mixes, served, builds, times, retention, digest, i);
    var live := View(eras[i], mixes[i], served[i]);
    ViewIsSound(eras[i], mixes[i], served[i], times[i] + retention, digest);
    FetchNeverMisses(live, times[i], retention, times[i] + retention, digest);
    PublishSucceedsExactly(live, builds[i], times[i], retention, times[i] + retention, digest);
  }

  lemma {:induction false} MixedPromiseLasts(
      eras: seq<Era>, mixes: seq<Mix>, served: seq<map<string, Bytes>>, builds: seq<Build>, times: seq<int>,
      retention: int, digest: Bytes -> string, k: nat, j: nat, p: string, sha: string, e: int)
    requires MixedRun(eras, mixes, served, builds, times, retention, digest) && k <= j < |builds|
    requires Kept(eras[k], p, sha, e) && times[j] < e <= times[k] + retention
    ensures Kept(eras[j + 1], p, sha, e)
    decreases j
  {
    if k < j {
      assert times[j - 1] <= times[j] && times[k] <= times[j];
      MixedPromiseLasts(eras, mixes, served, builds, times, retention, digest, k, j - 1, p, sha, e);
    }
    MixedRunStaysSound(eras, mixes, served, builds, times, retention, digest, j);
    MixedPublishKeeps(eras[j], mixes[j], served[j], builds[j], times[j], retention, times[j] + retention, digest,
                      p, sha, e);
  }

  /**
   How long a named object stays served: whatever mixes the fetches are given,
   at every publication within the retention period after the one that named
   it.
   */
  lemma MixedNamedStayServed(
      eras: seq<Era>, mixes: seq<Mix>, served: seq<map<string, Bytes>>, builds: seq<Build>, times: seq<int>,
      retention: int, digest: Bytes -> string, k: nat, j: nat, p: string, sha: string)
    requires MixedRun(eras, mixes, served, builds, times, retention, digest) && k <= j < |builds|
    requires PublishResult(View(eras[k], mixes[k], served[k]), builds[k], times[k], retention, digest).Ok?
    requires Named(eras[k + 1].newer, p, sha) && times[j] < times[k] + retention
    ensures Matches(eras[j + 1].newer.objects, p, sha, digest)
  {
    MixedRunStaysSound(eras, mixes, served, builds, times, retention, digest, k);
    MixedRunStaysSound(eras, mixes, served, builds, times, retention, digest, j);
    PublishedNamesAreKept(eras[k], mixes[k], served[k], builds[k], times[k], retention, times[k] + retention, digest,
                          p, sha);
    if k < j {
      assert times[k] <= times[k + 1];
      MixedPromiseLasts(eras, mixes, served, builds, times, retention, digest, k + 1, j, p, sha, times[k] + retention);
    }
    SoundMatches(eras[j + 1].newer, times[j] + retention, digest, p, sha, times[k] + retention);
  }

  /**
   A case in which a stale manifest makes a publication drop an object that the
   newest deployment still records, long before that record expires.
   */
  lemma StaleManifestMayDrop()
    returns (older: Deployment, empty: Build, p: string, sha: string, digest: Bytes -> string)
    ensures Sound(older, 10, digest) && PublishResult(older, empty, 9, 10, digest).Ok?
    ensures var era := Era(older, PublishResult(older, empty, 9, 10, digest).value);
            var served := older.objects + era.newer.objects;
            && EraSound(era, 19, digest) && Possible(era, StaleManifest, served, digest)
            && Named(older, p, sha) && Recorded(era.newer, p, sha, 19)
            && PublishResult(View(era, StaleManifest, served), empty, 15, 10, digest).Ok?
            && p !in NextEra(era, StaleManifest, served, empty, 15, 10, digest).newer.objects
  {
    sha := seq(64, _ => '0');
    var hex := sha;
    digest, p, empty := _ => hex, "repodata/" + hex + "-x", Build(map[], []);
    HexPath(hex);
    older := Deployment(
      map[p := []],
      Some([DataNode(Some(ChecksumNode(Some("sha256"), Some(sha))), Some(LocationNode(Some(p))))]), true,
      Some(Files([Record(Some(p), Some(sha), Some(10))])));
    OlderIsSound(older, p, sha, digest);
    NewerRecords(older, empty, p, sha, digest);
    var newer := PublishResult(older, empty, 9, 10, digest).value;
    StaleManifestDrops(Era(older, newer), older.objects + newer.objects, empty, p, sha, digest);
  }

  lemma HexPath(hex: string)
    requires IsSha256(hex)
    ensures IsPath("repodata/" + hex + "-x") && ("repodata/" + hex + "-x")[9..73] == hex
  {
    var p := "repodata/" + hex + "-x";
    assert p[..9] == "repodata/" && p[74..] == "x";
  }

  /** Published at 0: it names one object and records it until 10. */
  ghost predicate NamesOne(older: Deployment, p: string, sha: string) {
    && older.objects == map[p := []] && older.signed
    && older.repomd == Some([DataNode(Some(ChecksumNode(Some("sha256"), Some(sha))), Some(LocationNode(Some(p))))])
    && older.manifest == Some(Files([Record(Some(p), Some(sha), Some(10))]))
  }

  lemma OlderIsSound(older: Deployment, p: string, sha: string, digest: Bytes -> string)
    requires IsPath(p) && p[9..73] == sha && IsSha256(sha) && forall b :: digest(b) == sha
    requires NamesOne(older, p, sha)
    ensures Sound(older, 10, digest) && Addressing(older.objects, digest) && Named(older, p, sha)
  {
    assert older.repomd.value[0] in older.repomd.value;
  }

  /** An empty build published at 9 names nothing and records the object until 19. */
  lemma NewerRecords(older: Deployment, empty: Build, p: string, sha: string, digest: Bytes -> string)
    requires Sound(older, 10, digest) && Addressing(older.objects, digest) && Named(older, p, sha)
    requires empty == Build(map[], []) && forall b :: IsSha256(digest(b))
    ensures PublishResult(older, empty, 9, 10, digest).Ok?
    ensures var newer := PublishResult(older, empty, 9, 10, digest).value;
            Sound(newer, 19, digest) && Addressing(newer.objects, digest) && Recorded(newer, p, sha, 19)
            && newer.repomd == Some([])
  {
    PublishSucceedsExactly(older, empty, 9, 10, 10, digest);
    NewDeploymentIsSound(older, empty, 9, 10, 10, digest);
    NextIsAddressing(older, empty, 9, 10, 10, digest);
    PublishKeepsPromise(older, empty, 9, 10, 10, digest, p, sha, 19);
    NextIsDone(older, empty, 9, 10, 10, digest);
  }

  /** Published at 15 behind a manifest in which the object has expired. */
  lemma StaleManifestDrops(
      era: Era, served: map<string, Bytes>, empty: Build, p: string, sha: string, digest: Bytes -> string)
    requires EraSound(era, 19, digest) && Possible(era, StaleManifest, served, digest)
    requires NamesOne(era.older, p, sha) && era.newer.repomd == Some([])
    requires empty == Build(map[], []) && forall b :: IsSha256(digest(b))
    ensures PublishResult(View(era, StaleManifest, served), empty, 15, 10, digest).Ok?
    ensures p !in NextEra(era, StaleManifest, served, empty, 15, 10, digest).newer.objects
  {
    ViewIsSound(era, StaleManifest, served, 19, digest);
    PublishSucceedsExactly(View(era, StaleManifest, served), empty, 15, 10, 19, digest);
    MixedServedExactly(era, StaleManifest, served, empty, 15, 10, 19, digest, p);
    NothingPromised(era, served, p, sha);
  }

  lemma NothingPromised(era: Era, served: map<string, Bytes>, p: string, sha: string)
    requires NamesOne(era.older, p, sha) && era.newer.repomd == Some([])
    ensures !Promised(View(era, StaleManifest, served), p, 16)
  {
  }
}
