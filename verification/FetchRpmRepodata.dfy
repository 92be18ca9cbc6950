/** Model of fetch-rpm-repodata.py: copy the live metadata that clients may still name. */
module FetchRpmRepodata {
  import opened Results
  import opened RpmMetadata

  /** One candidate per `data` element of the live repomd.xml. */
  function NodeRecords(nodes: seq<DataNode>, expiry: int): Result<seq<Record>, Failure> {
    if nodes == [] then Ok([])
    else
      var n := |nodes| - 1;
      match NodeRecords(nodes[..n], expiry)
      case Err(f) => Err(f)
      case Ok(records) =>
        if nodes[n].checksum == None || nodes[n].location == None then Err(BadRepomd)
        else Ok(records + [Record(nodes[n].location.value.href, nodes[n].checksum.value.text, Some(expiry))])
  }

  /** The manifest's records, then the repomd records: neither is an alternative to the other. */
  function Candidates(live: Deployment, expiry: int): Result<seq<Record>, Failure>
    requires live.repomd.Some?
  {
    if live.manifest == Some(Malformed) then Err(BadManifest)
    else
      match NodeRecords(live.repomd.value, expiry)
      case Err(f) => Err(f)
      case Ok(named) => Ok((if live.manifest.Some? then live.manifest.value.records else []) + named)
  }

  /** The records kept after each unexpired candidate was fetched and checked; a later one wins. */
  function Collect(candidates: seq<Record>, objects: map<string, Bytes>, now: int, digest: Bytes -> string)
    : Result<map<string, Record>, Failure>
  {
    if candidates == [] then Ok(map[])
    else
      var n := |candidates| - 1;
      match Collect(candidates[..n], objects, now, digest)
      case Err(f) => Err(f)
      case Ok(files) =>
        var r := candidates[n];
        if !WellFormed(r) then Err(BadRecord)
        else if r.expiresAt.value <= now then Ok(files)
        else if r.path.value !in objects then Err(Missing(r.path.value))
        else if digest(objects[r.path.value]) != r.sha256.value then Err(Mismatch(r.path.value))
        else Ok(files[r.path.value := r])
  }

  function Pick(objects: map<string, Bytes>, paths: set<string>): map<string, Bytes> {
    map p | p in paths && p in objects :: objects[p]
  }

  function FetchResult(live: Deployment, now: int, retention: int, digest: Bytes -> string): Result<Snapshot, Failure> {
    if live.repomd == None then Ok(Snapshot(map[], None))
    else if !live.signed then Err(Missing("repodata/repomd.xml.asc"))
    else
      match Candidates(live, now + retention)
      case Err(f) => Err(f)
      case Ok(candidates) =>
        match Collect(candidates, live.objects, now, digest)
        case Err(f) => Err(f)
        case Ok(files) => Ok(Snapshot(Pick(live.objects, files.Keys), Some(Files(Listing(files)))))
  }

  lemma {:induction false} CollectFailsForever(
      candidates: seq<Record>, i: nat, objects: map<string, Bytes>, now: int, digest: Bytes -> string)
    requires i <= |candidates| && Collect(candidates[..i], objects, now, digest).Err?
    ensures Collect(candidates, objects, now, digest) == Collect(candidates[..i], objects, now, digest)
  {
    if i == |candidates| {
      assert candidates[..i] == candidates;
    } else {
      var n := |candidates| - 1;
      assert candidates[..n][..i] == candidates[..i];
      CollectFailsForever(candidates[..n], i, objects, now, digest);
    }
  }

  lemma {:induction false} NodesFailForever(nodes: seq<DataNode>, i: nat, expiry: int)
    requires i <= |nodes| && NodeRecords(nodes[..i], expiry).Err?
    ensures NodeRecords(nodes, expiry) == NodeRecords(nodes[..i], expiry)
  {
    if i == |nodes| {
      assert nodes[..i] == nodes;
    } else {
      assert nodes[..|nodes| - 1][..i] == nodes[..i];
      NodesFailForever(nodes[..|nodes| - 1], i, expiry);
    }
  }

  /** The loop over repomd.xml's `data` elements. */
  method AppendNamed(listed: seq<Record>, nodes: seq<DataNode>, expiry: int)
    returns (result: Result<seq<Record>, Failure>)
    ensures result == match NodeRecords(nodes, expiry)
                      case Err(f) => Err(f)
                      case Ok(named) => Ok(listed + named)
  {
    var candidates := listed;
    for i := 0 to |nodes|
      invariant NodeRecords(nodes[..i], expiry).Ok?
      invariant candidates == listed + NodeRecords(nodes[..i], expiry).value
    {
      assert nodes[..i + 1][..i] == nodes[..i];
      if nodes[i].checksum == None || nodes[i].location == None {
        NodesFailForever(nodes, i + 1, expiry);
        return Err(BadRepomd);
      }
      candidates := candidates + [Record(nodes[i].location.value.href, nodes[i].checksum.value.text, Some(expiry))];
    }
    assert nodes[..|nodes|] == nodes;
    return Ok(candidates);
  }

  /** The loop over the candidates: fetch, check, write and record each unexpired one. */
  method FetchUnexpired(candidates: seq<Record>, objects: map<string, Bytes>, now: int, digest: Bytes -> string)
    returns (result: Result<map<string, Record>, Failure>, written: map<string, Bytes>)
    ensures result == Collect(candidates, objects, now, digest)
    ensures result.Ok? ==> written == Pick(objects, result.value.Keys)
  {
    var files: map<string, Record> := map[];
    written := map[];
    for i := 0 to |candidates|
      invariant Collect(candidates[..i], objects, now, digest) == Ok(files)
      invariant written == Pick(objects, files.Keys)
    {
      assert candidates[..i + 1][..i] == candidates[..i];
      var record := candidates[i];
      if !WellFormed(record) {
        CollectFailsForever(candidates, i + 1, objects, now, digest);
        return Err(BadRecord), written;
      }
      if record.expiresAt.value <= now {
        continue;
      }
      var relative := record.path.value;
      if relative !in objects {
        CollectFailsForever(candidates, i + 1, objects, now, digest);
        return Err(Missing(relative)), written;
      }
      var payload := objects[relative];
      if digest(payload) != record.sha256.value {
        CollectFailsForever(candidates, i + 1, objects, now, digest);
        return Err(Mismatch(relative)), written;
      }
      written := written[relative := payload];
      files := files[relative := record];
    }
    assert candidates[..|candidates|] == candidates;
    return Ok(files), written;
  }

  /** The script: it ends with the first failure, or leaves the snapshot behind. */
  method Fetch(live: Deployment, now: int, retention: int, digest: Bytes -> string)
    returns (result: Result<Snapshot, Failure>)
    ensures result == FetchResult(live, now, retention, digest)
  {
    if live.repomd == None {
      return Ok(Snapshot(map[], None));
    }
    if !live.signed {
      return Err(Missing("repodata/repomd.xml.asc"));
    }
    var listed: seq<Record> := [];
    if live.manifest.Some? {
      if live.manifest.value.Malformed? {
        return Err(BadManifest);
      }
      listed := live.manifest.value.records;
    }
    var candidates := AppendNamed(listed, live.repomd.value, now + retention);
    if candidates.Err? {
      return Err(candidates.error);
    }
    var files, written := FetchUnexpired(candidates.value, live.objects, now, digest);
    if files.Err? {
      return Err(files.error);
    }
    return Ok(Snapshot(written, Some(Files(Listing(files.value)))));
  }

  // ---------------------------------------------------------- properties

  /** Record `r` is to be fetched and the live tree answers for it. */
  ghost predicate Servable(r: Record, objects: map<string, Bytes>, now: int, digest: Bytes -> string) {
    WellFormed(r) && (r.expiresAt.value > now ==> Matches(objects, r.path.value, r.sha256.value, digest))
  }

  /** The walk over the candidates fails exactly when some candidate cannot be served. */
  lemma {:induction false} CollectSucceedsExactly(
      candidates: seq<Record>, objects: map<string, Bytes>, now: int, digest: Bytes -> string)
    ensures Collect(candidates, objects, now, digest).Ok?
            <==> forall i | 0 <= i < |candidates| :: Servable(candidates[i], objects, now, digest)
  {
    if candidates != [] {
      var n := |candidates| - 1;
      CollectSucceedsExactly(candidates[..n], objects, now, digest);
      assert forall i | 0 <= i < n :: candidates[..n][i] == candidates[i];
    }
  }

  /** Candidate `i` is the last unexpired one for path `p`, and the live tree answers for it. */
  ghost predicate LastFor(
      candidates: seq<Record>, i: nat, p: string, objects: map<string, Bytes>, now: int, digest: Bytes -> string)
  {
    && i < |candidates|
    && WellFormed(candidates[i]) && candidates[i].path == Some(p) && candidates[i].expiresAt.value > now
    && Matches(objects, p, candidates[i].sha256.value, digest)
    && forall j | i < j < |candidates| && candidates[j].path == Some(p) ::
         candidates[j].expiresAt.Some? && candidates[j].expiresAt.value <= now
  }

  /** What is kept: for each path with an unexpired candidate, the last one. */
  lemma {:induction false} CollectKeepsLast(
      candidates: seq<Record>, objects: map<string, Bytes>, now: int, digest: Bytes -> string)
    requires Collect(candidates, objects, now, digest).Ok?
    ensures var files := Collect(candidates, objects, now, digest).value;
            && (forall p | p in files ::
                  exists i: nat :: LastFor(candidates, i, p, objects, now, digest) && candidates[i] == files[p])
            && (forall i | 0 <= i < |candidates| :: WellFormed(candidates[i])
                  && (candidates[i].expiresAt.value > now ==> candidates[i].path.value in files))
  {
    if candidates != [] {
      var n := |candidates| - 1;
      CollectKeepsLast(candidates[..n], objects, now, digest);
      var before := Collect(candidates[..n], objects, now, digest).value;
      var files := Collect(candidates, objects, now, digest).value;
      assert forall i | 0 <= i < n :: candidates[..n][i] == candidates[i];
      forall p | p in files
        ensures exists i: nat :: LastFor(candidates, i, p, objects, now, digest) && candidates[i] == files[p]
      {
        if candidates[n].path == Some(p) && candidates[n].expiresAt.value > now {
          assert LastFor(candidates, n, p, objects, now, digest) && candidates[n] == files[p];
        } else {
          assert p in before && files[p] == before[p];
          var i: nat :| LastFor(candidates[..n], i, p, objects, now, digest) && candidates[..n][i] == before[p];
          assert LastFor(candidates, i, p, objects, now, digest) && candidates[i] == files[p];
        }
      }
    }
  }

  lemma {:induction false} NodeRecordsExactly(nodes: seq<DataNode>, expiry: int)
    ensures NodeRecords(nodes, expiry).Ok? <==> forall n | n in nodes :: n.checksum.Some? && n.location.Some?
    ensures NodeRecords(nodes, expiry).Err? ==> NodeRecords(nodes, expiry).error == BadRepomd
    ensures NodeRecords(nodes, expiry).Ok? ==>
              var named := NodeRecords(nodes, expiry).value;
              |named| == |nodes|
              && forall i | 0 <= i < |nodes| ::
                   && nodes[i].checksum.Some? && nodes[i].location.Some?
                   && named[i]
                      == Record(nodes[i].location.value.href, nodes[i].checksum.value.text, Some(expiry))
  {
    if nodes != [] {
      var n := |nodes| - 1;
      NodeRecordsExactly(nodes[..n], expiry);
      assert nodes == nodes[..n] + [nodes[n]];
    }
  }

  lemma {:induction false} CollectErrors(
      candidates: seq<Record>, objects: map<string, Bytes>, now: int, digest: Bytes -> string)
    ensures Collect(candidates, objects, now, digest).Err? ==>
              var f := Collect(candidates, objects, now, digest).error;
              f == BadRecord || f.Missing? || f.Mismatch?
  {
    if candidates != [] {
      CollectErrors(candidates[..|candidates| - 1], objects, now, digest);
    }
  }

  /** Every unexpired object that the manifest records or repomd.xml names is served with its checksum. */
  ghost predicate AllServable(live: Deployment, now: int, retention: int, digest: Bytes -> string) {
    && (live.manifest.Some? && live.manifest.value.Files? ==>
          forall r | r in live.manifest.value.records :: Servable(r, live.objects, now, digest))
    && (live.repomd.Some? ==>
          forall n | n in live.repomd.value && n.checksum.Some? && n.location.Some? ::
            Servable(
              Record(n.location.value.href, n.checksum.value.text, Some(now + retention)), live.objects, now, digest))
  }

  lemma CandidatesServable(live: Deployment, c: seq<Record>, now: int, retention: int, digest: Bytes -> string)
    requires live.repomd.Some? && Candidates(live, now + retention) == Ok(c)
    ensures AllServable(live, now, retention, digest)
            <==> forall i | 0 <= i < |c| :: Servable(c[i], live.objects, now, digest)
  {
    var nodes := live.repomd.value;
    var listed := if live.manifest.Some? then live.manifest.value.records else [];
    NodeRecordsExactly(nodes, now + retention);
    assert c == listed + NodeRecords(nodes, now + retention).value;
    if forall i | 0 <= i < |c| :: Servable(c[i], live.objects, now, digest) {
      forall r | r in listed ensures Servable(r, live.objects, now, digest) {
        var i :| 0 <= i < |listed| && listed[i] == r;
        assert c[i] == r;
      }
      forall n | n in nodes
        ensures Servable(Record(n.location.value.href, n.checksum.value.text, Some(now + retention)), live.objects, now,
                         digest)
      {
        var i :| 0 <= i < |nodes| && nodes[i] == n;
        assert c[|listed| + i]
               == Record(n.location.value.href, n.checksum.value.text, Some(now + retention));
      }
    }
    if AllServable(live, now, retention, digest) {
      forall i | 0 <= i < |c| ensures Servable(c[i], live.objects, now, digest) {
        if i < |listed| {
          assert listed[i] in listed;
        } else {
          assert nodes[i - |listed|] in nodes;
        }
      }
    }
  }

  /** Each `data` element has a checksum and a location. */
  ghost predicate AllNamed(nodes: seq<DataNode>) {
    forall n | n in nodes :: n.checksum.Some? && n.location.Some?
  }

  /**
   For any live deployment whatever: the fetch ends with a malformed manifest,
   with a repomd.xml that lacks a checksum or a location, and with an object
   that is not served as it should be, and otherwise succeeds.
   */
  lemma FetchSucceedsExactly(live: Deployment, now: int, retention: int, digest: Bytes -> string)
    ensures var r := FetchResult(live, now, retention, digest);
            && (r.Ok? <==>
                  live.repomd.None?
                  || (live.signed && live.manifest != Some(Malformed)
                      && AllNamed(live.repomd.value) && AllServable(live, now, retention, digest)))
            && (r == Err(BadManifest) <==> live.repomd.Some? && live.signed && live.manifest == Some(Malformed))
            && (r == Err(BadRepomd) <==>
                  live.repomd.Some? && live.signed && live.manifest != Some(Malformed)
                  && !AllNamed(live.repomd.value))
  {
    if live.repomd.Some? && live.signed && live.manifest != Some(Malformed) {
      NodeRecordsExactly(live.repomd.value, now + retention);
      if Candidates(live, now + retention).Ok? {
        var c := Candidates(live, now + retention).value;
        CandidatesServable(live, c, now, retention, digest);
        CollectSucceedsExactly(c, live.objects, now, digest);
        CollectErrors(c, live.objects, now, digest);
      }
    }
  }
}
