/** Model of retain-rpm-repodata.py: carry unexpired metadata into a new tree and renew its own. */
module RetainRpmRepodata {
  import opened Results
  import opened RpmMetadata

  /** The tree createrepo built and signed: its objects and its repomd.xml. */
  datatype Build = Build(objects: map<string, Bytes>, nodes: seq<DataNode>)

  /** The `files` dictionary and the tree under `root`. */
  datatype Work = Work(files: map<string, Record>, tree: map<string, Bytes>)

  /** Carry one record of the previous manifest. */
  function CarryOne(
      w: Work, r: Record, previous: map<string, Bytes>, now: int, digest: Bytes -> string)
    : Result<Work, Failure>
  {
    if !WellFormed(r) then Err(BadRecord)
    else if r.expiresAt.value <= now then Ok(w)
    else
      var p := r.path.value;
      if p !in previous then Err(Missing(p))
      else if digest(previous[p]) != r.sha256.value then Err(Mismatch(p))
      else if p in w.tree && digest(w.tree[p]) != r.sha256.value then Err(Collision(p))
      else Ok(Work(w.files[p := r], if p in w.tree then w.tree else w.tree[p := previous[p]]))
  }

  function Carry(records: seq<Record>, w: Work, previous: map<string, Bytes>, now: int, digest: Bytes -> string)
    : Result<Work, Failure>
  {
    if records == [] then Ok(w)
    else
      match CarryOne(w, records[0], previous, now, digest)
      case Err(f) => Err(f)
      case Ok(w') => Carry(records[1..], w', previous, now, digest)
  }

  function Text(t: Option<string>): string {
    if t.Some? then t.value else ""
  }

  /** Record one object of the new repomd.xml, which must name its own digest. */
  function RenewOne(w: Work, node: DataNode, expiry: int, digest: Bytes -> string): Result<Work, Failure> {
    if node.checksum == None || node.checksum.value.kind != Some("sha256") || node.location == None then Err(BadRepomd)
    else
      var p, sha := Text(node.location.value.href), Text(node.checksum.value.text);
      if !IsPath(p) || !("repodata/" + sha + "-" <= p) then Err(NotContentAddressed)
      else if p !in w.tree then Err(Missing(p))
      else if digest(w.tree[p]) != sha then Err(Mismatch(p))
      else Ok(w.(files := w.files[p := Record(Some(p), Some(sha), Some(expiry))]))
  }

  function Renew(nodes: seq<DataNode>, w: Work, expiry: int, digest: Bytes -> string): Result<Work, Failure> {
    if nodes == [] then Ok(w)
    else
      match RenewOne(w, nodes[0], expiry, digest)
      case Err(f) => Err(f)
      case Ok(w') => Renew(nodes[1..], w', expiry, digest)
  }

  function RetainResult(previous: Snapshot, build: Build, now: int, retention: int, digest: Bytes -> string)
    : Result<Deployment, Failure>
  {
    var start := Work(map[], build.objects);
    if previous.manifest == Some(Malformed) then Err(BadManifest)
    else
      var records := if previous.manifest.Some? then previous.manifest.value.records else [];
      match Carry(records, start, previous.objects, now, digest)
      case Err(f) => Err(f)
      case Ok(carried) =>
        match Renew(build.nodes, carried, now + retention, digest)
        case Err(f) => Err(f)
        case Ok(done) => Ok(Deployment(done.tree, Some(build.nodes), true, Some(Files(Listing(done.files)))))
  }

  /** The script's two loops and the manifest it writes. */
  method Retain(previous: Snapshot, build: Build, now: int, retention: int, digest: Bytes -> string)
    returns (result: Result<Deployment, Failure>)
    ensures result == RetainResult(previous, build, now, retention, digest)
  {
    var work := Work(map[], build.objects);
    if previous.manifest.Some? {
      if previous.manifest.value.Malformed? {
        return Err(BadManifest);
      }
      var carried := CarryRecords(previous.manifest.value.records, work, previous.objects, now, digest);
      if carried.Err? {
        return Err(carried.error);
      }
      work := carried.value;
    }
    var renewed := RenewNodes(build.nodes, work, now + retention, digest);
    if renewed.Err? {
      return Err(renewed.error);
    }
    return Ok(Deployment(renewed.value.tree, Some(build.nodes), true, Some(Files(Listing(renewed.value.files)))));
  }

  method CarryRecords(
      records: seq<Record>, start: Work, previous: map<string, Bytes>, now: int, digest: Bytes -> string)
    returns (result: Result<Work, Failure>)
    ensures result == Carry(records, start, previous, now, digest)
  {
    var files, tree := start.files, start.tree;
    for i := 0 to |records|
      invariant Carry(records[i..], Work(files, tree), previous, now, digest)
                 == Carry(records, start, previous, now, digest)
    {
      assert records[i..][1..] == records[i + 1..];
      var record := records[i];
      if !WellFormed(record) {
        return Err(BadRecord);
      }
      if record.expiresAt.value <= now {
        continue;
      }
      var relative, checksum := record.path.value, record.sha256.value;
      if relative !in previous {
        return Err(Missing(relative));
      }
      if digest(previous[relative]) != checksum {
        return Err(Mismatch(relative));
      }
      if relative in tree && digest(tree[relative]) != checksum {
        return Err(Collision(relative));
      }
      if relative !in tree {
        tree := tree[relative := previous[relative]];
      }
      files := files[relative := record];
    }
    return Ok(Work(files, tree));
  }

  method RenewNodes(nodes: seq<DataNode>, start: Work, expiry: int, digest: Bytes -> string)
    returns (result: Result<Work, Failure>)
    ensures result == Renew(nodes, start, expiry, digest)
  {
    var files := start.files;
    for i := 0 to |nodes|
      invariant Renew(nodes[i..], start.(files := files), expiry, digest) == Renew(nodes, start, expiry, digest)
    {
      assert nodes[i..][1..] == nodes[i + 1..];
      var node := nodes[i];
      if node.checksum == None || node.checksum.value.kind != Some("sha256") || node.location == None {
        return Err(BadRepomd);
      }
      var relative, checksum := Text(node.location.value.href), Text(node.checksum.value.text);
      if !IsPath(relative) || !("repodata/" + checksum + "-" <= relative) {
        return Err(NotContentAddressed);
      }
      if relative !in start.tree {
        return Err(Missing(relative));
      }
      if digest(start.tree[relative]) != checksum {
        return Err(Mismatch(relative));
      }
      files := files[relative := Record(Some(relative), Some(checksum), Some(expiry))];
    }
    return Ok(start.(files := files));
  }

  // ---------------------------------------------------------- properties

  /** Every recorded path is in the tree with its recorded checksum. */
  ghost predicate Backed(w: Work, digest: Bytes -> string) {
    && Keyed(w.files)
    && forall p | p in w.files ::
         WellFormed(w.files[p]) && Matches(w.tree, p, w.files[p].sha256.value, digest)
  }

  /** A previous record the carrying loop accepts into a tree that starts as `tree`. */
  ghost predicate Carriable(
      r: Record, tree: map<string, Bytes>, previous: map<string, Bytes>, now: int, digest: Bytes -> string)
  {
    && WellFormed(r)
    && (r.expiresAt.value > now ==>
          && Matches(previous, r.path.value, r.sha256.value, digest)
          && (r.path.value in tree ==> digest(tree[r.path.value]) == r.sha256.value))
  }

  /** What carrying `records` from `w` leaves behind. */
  ghost predicate Carried(
      w: Work, records: seq<Record>, w': Work, previous: map<string, Bytes>, now: int, digest: Bytes -> string)
  {
    && Backed(w', digest)
    && (forall p | p in w.tree :: p in w'.tree && w'.tree[p] == w.tree[p])
    && (forall p | p in w'.tree && p !in w.tree :: p in w'.files && p in previous && w'.tree[p] == previous[p])
    && (forall p | p in w.files :: p in w'.files && w'.files[p] == w.files[p])
    && (forall r | r in records && WellFormed(r) && r.expiresAt.value > now ::
          r.path.value in w'.files && w'.files[r.path.value] == r)
    && (forall p | p in w'.files && p !in w.files ::
          w'.files[p] in records && w'.files[p].expiresAt.value > now)
  }

  lemma CarryOneSucceedsExactly(w: Work, r: Record, previous: map<string, Bytes>, now: int, digest: Bytes -> string)
    ensures CarryOne(w, r, previous, now, digest).Ok? <==> Carriable(r, w.tree, previous, now, digest)
  {
  }

  lemma CarryOneIsBacked(w: Work, r: Record, previous: map<string, Bytes>, now: int, digest: Bytes -> string)
    requires Backed(w, digest) && CarryOne(w, r, previous, now, digest).Ok?
    ensures Backed(CarryOne(w, r, previous, now, digest).value, digest)
  {
  }

  lemma CarryOneCarries(w: Work, r: Record, previous: map<string, Bytes>, now: int, digest: Bytes -> string)
    requires Backed(w, digest) && (r.path.Some? ==> r.path.value !in w.files)
    requires CarryOne(w, r, previous, now, digest).Ok?
    ensures Carried(w, [r], CarryOne(w, r, previous, now, digest).value, previous, now, digest)
  {
    CarryOneIsBacked(w, r, previous, now, digest);
  }

  lemma CarryOneExactly(w: Work, r: Record, previous: map<string, Bytes>, now: int, digest: Bytes -> string)
    requires Backed(w, digest) && (r.path.Some? ==> r.path.value !in w.files)
    ensures CarryOne(w, r, previous, now, digest).Ok? <==> Carriable(r, w.tree, previous, now, digest)
    ensures CarryOne(w, r, previous, now, digest).Ok? ==>
              var w' := CarryOne(w, r, previous, now, digest).value;
              && Carried(w, [r], w', previous, now, digest)
              && (forall p | p in w'.tree && p !in w.tree :: r.path == Some(p))
              && (forall p | p in w'.files && p !in w.files :: r.path == Some(p))
  {
    CarryOneSucceedsExactly(w, r, previous, now, digest);
    if CarryOne(w, r, previous, now, digest).Ok? {
      CarryOneCarries(w, r, previous, now, digest);
    }
  }

  lemma CarriableElsewhere(
      q: Record, r: Record, w: Work, w': Work, previous: map<string, Bytes>, now: int, digest: Bytes -> string)
    requires q.path != r.path
    requires forall p | p in w.tree :: p in w'.tree && w'.tree[p] == w.tree[p]
    requires forall p | p in w'.tree && p !in w.tree :: r.path == Some(p)
    ensures Carriable(q, w'.tree, previous, now, digest) <==> Carriable(q, w.tree, previous, now, digest)
  {
  }

  /** What one record and then the rest leave behind is what all of them leave behind. */
  lemma CarriedChains(
      w: Work, r: Record, w': Work, rest: seq<Record>, w'': Work, previous: map<string, Bytes>, now: int,
      digest: Bytes -> string)
    requires Carried(w, [r], w', previous, now, digest) && Carried(w', rest, w'', previous, now, digest)
    ensures Carried(w, [r] + rest, w'', previous, now, digest)
  {
  }

  /** No record's path was recorded before. */
  ghost predicate Fresh(records: seq<Record>, w: Work) {
    forall r | r in records && r.path.Some? :: r.path.value !in w.files
  }

  lemma OtherPath(r: Record, rest: seq<Record>, q: Record)
    requires DistinctPaths([r] + rest) && q in rest
    ensures q.path != r.path && q in [r] + rest
  {
    var i :| 0 <= i < |rest| && rest[i] == q;
    assert ([r] + rest)[0] == r && ([r] + rest)[i + 1] == q;
  }

  lemma FreshAfterFirst(
      r: Record, rest: seq<Record>, w: Work, previous: map<string, Bytes>, now: int, digest: Bytes -> string)
    requires DistinctPaths([r] + rest) && Fresh([r] + rest, w) && CarryOne(w, r, previous, now, digest).Ok?
    ensures DistinctPaths(rest) && Fresh(rest, CarryOne(w, r, previous, now, digest).value)
  {
    assert forall i | 0 <= i < |rest| :: ([r] + rest)[i + 1] == rest[i];
    forall q | q in rest ensures q.path != r.path && q in [r] + rest {
      OtherPath(r, rest, q);
    }
  }

  lemma CarriableAfterFirst(
      r: Record, rest: seq<Record>, w: Work, previous: map<string, Bytes>, now: int, digest: Bytes -> string, q: Record)
    requires DistinctPaths([r] + rest) && q in rest && CarryOne(w, r, previous, now, digest).Ok?
    ensures Carriable(q, CarryOne(w, r, previous, now, digest).value.tree, previous, now, digest)
            <==> Carriable(q, w.tree, previous, now, digest)
  {
    OtherPath(r, rest, q);
    CarriableElsewhere(q, r, w, CarryOne(w, r, previous, now, digest).value, previous, now, digest);
  }

  lemma {:induction false} CarrySucceedsExactly(
      records: seq<Record>, w: Work, previous: map<string, Bytes>, now: int, digest: Bytes -> string)
    requires Backed(w, digest) && DistinctPaths(records) && Fresh(records, w)
    ensures Carry(records, w, previous, now, digest).Ok?
            <==> forall r | r in records :: Carriable(r, w.tree, previous, now, digest)
  {
    if records != [] {
      var r, rest := records[0], records[1..];
      assert records == [r] + rest && r in records;
      CarryOneSucceedsExactly(w, r, previous, now, digest);
      var one := CarryOne(w, r, previous, now, digest);
      if one.Ok? {
        CarryOneIsBacked(w, r, previous, now, digest);
        FreshAfterFirst(r, rest, w, previous, now, digest);
        CarrySucceedsExactly(rest, one.value, previous, now, digest);
        forall q | q in rest
          ensures Carriable(q, one.value.tree, previous, now, digest) <==> Carriable(q, w.tree, previous, now, digest)
        {
          CarriableAfterFirst(r, rest, w, previous, now, digest, q);
        }
      }
    }
  }

  lemma {:induction false} CarryCarries(
      records: seq<Record>, w: Work, previous: map<string, Bytes>, now: int, digest: Bytes -> string)
    requires Backed(w, digest) && DistinctPaths(records) && Fresh(records, w)
    requires Carry(records, w, previous, now, digest).Ok?
    ensures Carried(w, records, Carry(records, w, previous, now, digest).value, previous, now, digest)
  {
    if records != [] {
      var r, rest := records[0], records[1..];
      assert records == [r] + rest && r in records;
      CarryOneExactly(w, r, previous, now, digest);
      FreshAfterFirst(r, rest, w, previous, now, digest);
      var w' := CarryOne(w, r, previous, now, digest).value;
      CarryCarries(rest, w', previous, now, digest);
      CarriedChains(w, r, w', rest, Carry(rest, w', previous, now, digest).value, previous, now, digest);
    }
  }

  /** Carrying succeeds exactly on acceptable records, keeps the unexpired ones and only adds to the tree. */
  lemma CarryExactly(
      records: seq<Record>, w: Work, previous: map<string, Bytes>, now: int, digest: Bytes -> string)
    requires Backed(w, digest) && DistinctPaths(records) && Fresh(records, w)
    ensures Carry(records, w, previous, now, digest).Ok?
            <==> forall r | r in records :: Carriable(r, w.tree, previous, now, digest)
    ensures Carry(records, w, previous, now, digest).Ok? ==>
              Carried(w, records, Carry(records, w, previous, now, digest).value, previous, now, digest)
  {
    CarrySucceedsExactly(records, w, previous, now, digest);
    if Carry(records, w, previous, now, digest).Ok? {
      CarryCarries(records, w, previous, now, digest);
    }
  }

  /** A `data` element that names an object of the tree by its own digest. */
  ghost predicate Addressed(node: DataNode, tree: map<string, Bytes>, digest: Bytes -> string) {
    && node.checksum.Some? && node.checksum.value.kind == Some("sha256") && node.location.Some?
    && node.location.value.href.Some? && node.checksum.value.text.Some?
    && IsPath(node.location.value.href.value)
    && "repodata/" + node.checksum.value.text.value + "-" <= node.location.value.href.value
    && Matches(tree, node.location.value.href.value, node.checksum.value.text.value, digest)
  }

  lemma AddressHasDigest(p: string, sha: string)
    ensures IsPath(p) && "repodata/" + sha + "-" <= p ==> sha != ""
  {
    if IsPath(p) && sha == "" {
      assert p[9..73][0] in p[9..73];
      assert ("repodata/" + sha + "-")[9] == '-';
    }
  }

  lemma RenewOneExactly(w: Work, node: DataNode, expiry: int, digest: Bytes -> string)
    ensures RenewOne(w, node, expiry, digest).Ok? <==> Addressed(node, w.tree, digest)
  {
    if node.location.Some? && node.checksum.Some? {
      AddressHasDigest(Text(node.location.value.href), Text(node.checksum.value.text));
    }
  }

  /** What renewing the objects named by `nodes` leaves behind. */
  ghost predicate Renewed(w: Work, nodes: seq<DataNode>, w': Work, expiry: int, digest: Bytes -> string) {
    && Backed(w', digest) && w'.tree == w.tree
    && (forall n | n in nodes :: Addressed(n, w.tree, digest))
    && (forall n | n in nodes ::
          n.location.value.href.value in w'.files
          && w'.files[n.location.value.href.value]
              == Record(n.location.value.href, n.checksum.value.text, Some(expiry)))
    && (forall p | p in w.files ::
          p in w'.files && (w'.files[p] == w.files[p] || w'.files[p] == w.files[p].(expiresAt := Some(expiry))))
    && (forall p | p in w'.files && p !in w.files :: w'.files[p].expiresAt == Some(expiry))
  }

  /** Renewing succeeds exactly when every named object is in the tree under its own digest. */
  lemma {:induction false} RenewExactly(nodes: seq<DataNode>, w: Work, expiry: int, digest: Bytes -> string)
    requires Backed(w, digest) && forall b :: IsSha256(digest(b))
    ensures Renew(nodes, w, expiry, digest).Ok? <==> forall n | n in nodes :: Addressed(n, w.tree, digest)
    ensures Renew(nodes, w, expiry, digest).Ok? ==>
              Renewed(w, nodes, Renew(nodes, w, expiry, digest).value, expiry, digest)
  {
    if nodes != [] {
      var node, rest := nodes[0], nodes[1..];
      assert nodes == [node] + rest && node in nodes;
      RenewOneExactly(w, node, expiry, digest);
      var one := RenewOne(w, node, expiry, digest);
      if one.Ok? {
        RenewExactly(rest, one.value, expiry, digest);
      }
    }
  }

  lemma {:induction false} CarryErrors(
      records: seq<Record>, w: Work, previous: map<string, Bytes>, now: int, digest: Bytes -> string)
    ensures Carry(records, w, previous, now, digest) != Err(BadManifest)
    decreases |records|
  {
    if records != [] && CarryOne(w, records[0], previous, now, digest).Ok? {
      CarryErrors(records[1..], CarryOne(w, records[0], previous, now, digest).value, previous, now, digest);
    }
  }

  lemma {:induction false} RenewErrors(nodes: seq<DataNode>, w: Work, expiry: int, digest: Bytes -> string)
    ensures Renew(nodes, w, expiry, digest) != Err(BadManifest)
    decreases |nodes|
  {
    if nodes != [] && RenewOne(w, nodes[0], expiry, digest).Ok? {
      RenewErrors(nodes[1..], RenewOne(w, nodes[0], expiry, digest).value, expiry, digest);
    }
  }

  /** A malformed manifest in the fetched tree ends the script, before anything is carried. */
  lemma MalformedEndsRetain(previous: Snapshot, build: Build, now: int, retention: int, digest: Bytes -> string)
    ensures RetainResult(previous, build, now, retention, digest) == Err(BadManifest)
            <==> previous.manifest == Some(Malformed)
  {
    if previous.manifest != Some(Malformed) {
      var records := if previous.manifest.Some? then previous.manifest.value.records else [];
      var start := Work(map[], build.objects);
      CarryErrors(records, start, previous.objects, now, digest);
      var carried := Carry(records, start, previous.objects, now, digest);
      if carried.Ok? {
        RenewErrors(build.nodes, carried.value, now + retention, digest);
      }
    }
  }
}
