/** The documents the two RPM retention scripts exchange. */
module RpmMetadata {
  import opened Results

  type Bytes = seq<bv8>

  /** One manifest record as read from JSON; None where the field is missing or has another type. */
  datatype Record = Record(path: Option<string>, sha256: Option<string>, expiresAt: Option<int>)

  datatype Manifest = Malformed | Files(records: seq<Record>)

  datatype ChecksumNode = ChecksumNode(kind: Option<string>, text: Option<string>)

  datatype LocationNode = LocationNode(href: Option<string>)

  /** One `data` element of repomd.xml. */
  datatype DataNode = DataNode(checksum: Option<ChecksumNode>, location: Option<LocationNode>)

  /** A published tree: the metadata objects by path, and the three mutable documents. */
  datatype Deployment = Deployment(
    objects: map<string, Bytes>,
    repomd: Option<seq<DataNode>>,
    signed: bool,
    manifest: Option<Manifest>)

  /** What the fetch script leaves in the previous-deployment directory. */
  datatype Snapshot = Snapshot(objects: map<string, Bytes>, manifest: Option<Manifest>)

  datatype Failure =
    | BadManifest
    | BadRecord
    | BadRepomd
    | NotContentAddressed
    | Missing(path: string)
    | Mismatch(path: string)
    | Collision(path: string)

  predicate IsHex(s: string) {
    forall c | c in s :: '0' <= c <= '9' || 'a' <= c <= 'f'
  }

  predicate IsSha256(s: string) {
    |s| == 64 && IsHex(s)
  }

  predicate IsNameChar(c: char) {
    'A' <= c <= 'Z' || 'a' <= c <= 'z' || '0' <= c <= '9' || c == '.' || c == '_' || c == '+' || c == '-'
  }

  /** `repodata/[0-9a-f]{64}-[A-Za-z0-9._+-]+`, matched in full. */
  predicate IsPath(s: string) {
    && |s| > 74
    && s[..9] == "repodata/"
    && IsHex(s[9..73])
    && s[73] == '-'
    && forall c | c in s[74..] :: IsNameChar(c)
  }

  /** A digest in hexadecimal, and a name of the characters allowed. */
  ghost predicate ArePartsOf(s: string, sha: string, name: string) {
    && IsSha256(sha) && name != "" && (forall c | c in name :: IsNameChar(c))
    && s == "repodata/" + sha + "-" + name
  }

  lemma PathExactly(s: string)
    ensures IsPath(s) <==> exists sha, name :: ArePartsOf(s, sha, name)
  {
    if IsPath(s) {
      assert s == "repodata/" + s[9..73] + "-" + s[74..];
      assert ArePartsOf(s, s[9..73], s[74..]);
    }
    if sha, name :| ArePartsOf(s, sha, name) {
      assert s[9..73] == sha && s[74..] == name;
    }
  }

  predicate WellFormed(r: Record) {
    && r.path.Some? && IsPath(r.path.value)
    && r.sha256.Some? && IsSha256(r.sha256.value)
    && r.expiresAt.Some?
  }

  /** The digest of a file, or the failure to read it. */
  predicate Matches(objects: map<string, Bytes>, path: string, sha: string, digest: Bytes -> string) {
    path in objects && digest(objects[path]) == sha
  }

  // ------------------------------------------------- manifests by path

  /** Python's order on strings: by code point, a prefix first. */
  predicate Leq(a: string, b: string) {
    a == [] || (b != [] && (a[0] < b[0] || (a[0] == b[0] && Leq(a[1..], b[1..]))))
  }

  lemma {:induction false} LeqTotal(a: string, b: string)
    ensures Leq(a, b) || Leq(b, a)
  {
    if a != [] && b != [] && a[0] == b[0] {
      LeqTotal(a[1..], b[1..]);
    }
  }

  lemma {:induction false} LeqAntisymmetric(a: string, b: string)
    requires Leq(a, b) && Leq(b, a)
    ensures a == b
  {
    if a != [] {
      LeqAntisymmetric(a[1..], b[1..]);
      assert a == [a[0]] + a[1..] && b == [b[0]] + b[1..];
    }
  }

  lemma {:induction false} LeqTransitive(a: string, b: string, c: string)
    requires Leq(a, b) && Leq(b, c)
    ensures Leq(a, c)
  {
    if a != [] && a[0] == b[0] == c[0] {
      LeqTransitive(a[1..], b[1..], c[1..]);
    }
  }

  predicate IsLeast(s: set<string>, p: string) {
    p in s && forall q | q in s :: Leq(p, q)
  }

  lemma {:induction false} LeastExists(s: set<string>)
    requires s != {}
    ensures exists p :: IsLeast(s, p)
  {
    var p :| p in s;
    LeqTotal(p, p);
    if s == {p} {
      assert IsLeast(s, p);
    } else {
      LeastExists(s - {p});
      var m :| IsLeast(s - {p}, m);
      LeqTotal(p, m);
      forall q | q in s && Leq(p, m) ensures Leq(p, q) {
        if q != p {
          LeqTransitive(p, m, q);
        }
      }
      assert IsLeast(s, if Leq(p, m) then p else m);
    }
  }

  function Least(s: set<string>): (least: string)
    requires s != {}
    ensures IsLeast(s, least)
  {
    LeastExists(s);
    assert forall p, q | IsLeast(s, p) && IsLeast(s, q) :: p == q by {
      forall p, q | IsLeast(s, p) && IsLeast(s, q) ensures p == q {
        LeqAntisymmetric(p, q);
      }
    }
    var p :| p in s && IsLeast(s, p);
    p
  }

  /** `sorted(files)` */
  function Sorted(paths: set<string>): seq<string> {
    if paths == {} then [] else var p := Least(paths); [p] + Sorted(paths - {p})
  }

  lemma {:induction false} SortedIsExact(paths: set<string>)
    ensures forall p :: p in Sorted(paths) <==> p in paths
    ensures forall i, j | 0 <= i < j < |Sorted(paths)| ::
              Sorted(paths)[i] != Sorted(paths)[j] && Leq(Sorted(paths)[i], Sorted(paths)[j])
  {
    if paths != {} {
      var p := Least(paths);
      var rest := Sorted(paths - {p});
      SortedIsExact(paths - {p});
      assert Sorted(paths) == [p] + rest;
      forall i, j | 0 <= i < j < |rest| + 1
        ensures ([p] + rest)[i] != ([p] + rest)[j] && Leq(([p] + rest)[i], ([p] + rest)[j])
      {
        assert rest[j - 1] in rest;
      }
    }
  }

  /** `[files[path] for path in sorted(files)]` */
  function Listing(files: map<string, Record>): (records: seq<Record>) {
    SortedIsExact(files.Keys);
    var paths := Sorted(files.Keys);
    assert forall i | 0 <= i < |paths| :: paths[i] in paths;
    seq(|paths|, i requires 0 <= i < |paths| => files[paths[i]])
  }

  ghost predicate Keyed(files: map<string, Record>) {
    forall p | p in files :: files[p].path == Some(p)
  }

  ghost predicate DistinctPaths(records: seq<Record>) {
    forall i, j | 0 <= i < j < |records| :: records[i].path != records[j].path
  }

  /** The records are the listed ones, in the order of their sorted paths. */
  lemma ListingFollowsPaths(files: map<string, Record>)
    requires Keyed(files)
    ensures var paths, records := Sorted(files.Keys), Listing(files);
            |records| == |paths|
            && forall i | 0 <= i < |paths| ::
                 paths[i] in files && records[i] == files[paths[i]] && records[i].path == Some(paths[i])
  {
    SortedIsExact(files.Keys);
    assert forall i | 0 <= i < |Sorted(files.Keys)| :: Sorted(files.Keys)[i] in Sorted(files.Keys);
  }

  lemma ListingIsOrdered(files: map<string, Record>)
    requires Keyed(files)
    ensures DistinctPaths(Listing(files))
    ensures forall i, j | 0 <= i < j < |Listing(files)| ::
              Listing(files)[i].path.Some? && Listing(files)[j].path.Some?
              && Leq(Listing(files)[i].path.value, Listing(files)[j].path.value)
  {
    SortedIsExact(files.Keys);
    ListingFollowsPaths(files);
  }

  /** The written manifest holds each record once, under its own path, in path order. */
  lemma ListingIsExact(files: map<string, Record>)
    requires Keyed(files)
    ensures forall r :: r in Listing(files) <==> (r.path.Some? && r.path.value in files && files[r.path.value] == r)
    ensures DistinctPaths(Listing(files))
    ensures forall i, j | 0 <= i < j < |Listing(files)| ::
              Listing(files)[i].path.Some? && Listing(files)[j].path.Some?
              && Leq(Listing(files)[i].path.value, Listing(files)[j].path.value)
  {
    ListingIsOrdered(files);
    SortedIsExact(files.Keys);
    ListingFollowsPaths(files);
    forall r: Record | r.path.Some? && r.path.value in files && files[r.path.value] == r ensures r in Listing(files) {
      var i :| 0 <= i < |Sorted(files.Keys)| && Sorted(files.Keys)[i] == r.path.value;
      assert Listing(files)[i] == r;
    }
  }
}
