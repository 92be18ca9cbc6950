/**
 Model of the closure check on a packed package release.  What the archive's
 bytes say about an artifact is its `sound` flag; version ranges are judged by
 the parameter `satisfies`.
 */
module PackageRelease {
  /** A name and the requirement on its version. */
  type Edge = (string, string)

  datatype Artifact = Artifact(name: string, version: string, dependencies: seq<Edge>, sound: bool)

  type Artifacts = map<string, Artifact>

  type Satisfies = (string, string) -> bool

  // ------------------------------------------------------- what is promised

  predicate Names(edges: seq<Edge>, name: string) {
    exists e | e in edges :: e.0 == name
  }

  /** A walk along declared dependencies that stays inside the release. */
  predicate IsPath(artifacts: Artifacts, declared: seq<Edge>, path: seq<string>) {
    && path != [] && Names(declared, path[0])
    && (forall n | n in path :: n in artifacts)
    && forall i: nat | i < |path| - 1 :: path[i] in artifacts && Names(artifacts[path[i]].dependencies, path[i + 1])
  }

  ghost predicate Reachable(artifacts: Artifacts, declared: seq<Edge>, name: string) {
    exists path :: IsPath(artifacts, declared, path) && path[|path| - 1] == name
  }

  /** The edge leaves the release, or the artifact it reaches is of a version it allows. */
  predicate Met(artifacts: Artifacts, e: Edge, satisfies: Satisfies) {
    e.0 in artifacts ==> satisfies(artifacts[e.0].version, e.1)
  }

  /** The edges of the closure: those declared and those of every reachable artifact. */
  ghost predicate InClosure(artifacts: Artifacts, declared: seq<Edge>, e: Edge) {
    e in declared
    || exists n :: Reachable(artifacts, declared, n) && n in artifacts && e in artifacts[n].dependencies
  }

  ghost predicate ClosureMet(artifacts: Artifacts, declared: seq<Edge>, satisfies: Satisfies) {
    forall e | InClosure(artifacts, declared, e) :: Met(artifacts, e, satisfies)
  }

  ghost predicate Selects(selector: string, name: string) {
    selector == name || name + "@" <= selector
  }

  ghost predicate OverridesMet(artifacts: Artifacts, overrides: seq<Edge>, satisfies: Satisfies) {
    forall o, n | o in overrides && n in artifacts && Selects(o.0, n) :: satisfies(artifacts[n].version, o.1)
  }

  function ByName(release: seq<Artifact>): (m: Artifacts)
    ensures forall n | n in m :: m[n].name == n && m[n] in release
  {
    if release == [] then map[]
    else ByName(release[..|release| - 1])[release[|release| - 1].name := release[|release| - 1]]
  }

  predicate Identified(release: seq<Artifact>) {
    && (forall a | a in release :: a.sound)
    && forall i, j | 0 <= i < j < |release| :: release[i].name != release[j].name
  }

  lemma {:induction false} ByNameExactly(release: seq<Artifact>, name: string)
    ensures name in ByName(release) <==> exists a | a in release :: a.name == name
    ensures Identified(release) && name in ByName(release) ==>
              forall a | a in release && a.name == name :: ByName(release)[name] == a
  {
    if release != [] {
      var front, last := release[..|release| - 1], release[|release| - 1];
      ByNameExactly(front, name);
      assert release == front + [last];
      assert Identified(release) ==> Identified(front);
    }
  }

  // ------------------------------------------------------------- paths

  lemma Extend(artifacts: Artifacts, declared: seq<Edge>, from: string, e: Edge)
    requires Reachable(artifacts, declared, from) && from in artifacts && e in artifacts[from].dependencies
    requires e.0 in artifacts
    ensures Reachable(artifacts, declared, e.0)
  {
    var path :| IsPath(artifacts, declared, path) && path[|path| - 1] == from;
    var longer := path + [e.0];
    forall i: nat | i < |longer| - 1
      ensures longer[i] in artifacts && Names(artifacts[longer[i]].dependencies, longer[i + 1])
    {
      if i < |path| - 1 {
        assert path[i] in artifacts && Names(artifacts[path[i]].dependencies, path[i + 1]);
      }
    }
    assert IsPath(artifacts, declared, longer);
  }

  lemma Start(artifacts: Artifacts, declared: seq<Edge>, e: Edge)
    requires e in declared && e.0 in artifacts
    ensures Reachable(artifacts, declared, e.0)
  {
    assert IsPath(artifacts, declared, [e.0]);
  }

  /** Where an edge of the closure leads is reachable. */
  lemma ClosureReaches(artifacts: Artifacts, declared: seq<Edge>, e: Edge)
    requires InClosure(artifacts, declared, e) && e.0 in artifacts
    ensures Reachable(artifacts, declared, e.0)
  {
    if e in declared {
      Start(artifacts, declared, e);
    } else {
      var n :| Reachable(artifacts, declared, n) && n in artifacts && e in artifacts[n].dependencies;
      Extend(artifacts, declared, n, e);
    }
  }

  /** A walk has followed the edge. */
  predicate Followed(artifacts: Artifacts, e: Edge, seen: set<string>, satisfies: Satisfies) {
    Met(artifacts, e, satisfies) && (e.0 in artifacts ==> e.0 in seen)
  }

  predicate AllFollowed(artifacts: Artifacts, edges: seq<Edge>, seen: set<string>, satisfies: Satisfies) {
    forall e | e in edges :: Followed(artifacts, e, seen, satisfies)
  }

  lemma FollowedNext(
      artifacts: Artifacts, edges: seq<Edge>, i: nat, before: set<string>, seen: set<string>, satisfies: Satisfies)
    requires i < |edges| && AllFollowed(artifacts, edges[..i], before, satisfies) && before <= seen
    requires Followed(artifacts, edges[i], seen, satisfies)
    ensures AllFollowed(artifacts, edges[..i + 1], seen, satisfies)
    ensures i + 1 == |edges| ==> AllFollowed(artifacts, edges, seen, satisfies)
  {
    assert edges[..i + 1] == edges[..i] + [edges[i]];
    assert i + 1 == |edges| ==> edges[..i + 1] == edges;
  }

  predicate Closed(artifacts: Artifacts, n: string, seen: set<string>, satisfies: Satisfies) {
    n in artifacts && AllFollowed(artifacts, artifacts[n].dependencies, seen, satisfies)
  }

  /** Everything in `seen` beyond `before` is closed. */
  predicate ClosedSince(artifacts: Artifacts, before: set<string>, seen: set<string>, satisfies: Satisfies) {
    before <= seen && forall n | n in seen - before :: Closed(artifacts, n, seen, satisfies)
  }

  lemma ClosedChains(artifacts: Artifacts, a: set<string>, b: set<string>, c: set<string>, satisfies: Satisfies)
    requires ClosedSince(artifacts, a, b, satisfies) && ClosedSince(artifacts, b, c, satisfies)
    ensures ClosedSince(artifacts, a, c, satisfies)
  {
    forall n | n in c - a ensures Closed(artifacts, n, c, satisfies) {
      if n in b {
        assert Closed(artifacts, n, b, satisfies);
      }
    }
  }

  lemma {:induction false} ClosedCoversPath(
      artifacts: Artifacts, declared: seq<Edge>, seen: set<string>, satisfies: Satisfies, path: seq<string>)
    requires AllFollowed(artifacts, declared, seen, satisfies)
    requires forall n | n in seen :: Closed(artifacts, n, seen, satisfies)
    requires IsPath(artifacts, declared, path)
    ensures path[|path| - 1] in seen
  {
    if |path| > 1 {
      var front := path[..|path| - 1];
      forall i: nat | i < |front| - 1
        ensures front[i] in artifacts && Names(artifacts[front[i]].dependencies, front[i + 1])
      {
        assert path[i] in artifacts && Names(artifacts[path[i]].dependencies, path[i + 1]);
      }
      ClosedCoversPath(artifacts, declared, seen, satisfies, front);
      var i := |path| - 2;
      assert path[i] == front[|front| - 1] && Names(artifacts[path[i]].dependencies, path[i + 1]);
    }
  }

  /** A closed set of reachable artifacts is all of them, and all their edges are met. */
  lemma ClosedIsClosure(artifacts: Artifacts, declared: seq<Edge>, seen: set<string>, satisfies: Satisfies)
    requires AllFollowed(artifacts, declared, seen, satisfies)
    requires forall n | n in seen :: Closed(artifacts, n, seen, satisfies) && Reachable(artifacts, declared, n)
    ensures forall n :: n in seen <==> Reachable(artifacts, declared, n)
    ensures ClosureMet(artifacts, declared, satisfies)
  {
    forall n | Reachable(artifacts, declared, n) ensures n in seen {
      var path :| IsPath(artifacts, declared, path) && path[|path| - 1] == n;
      ClosedCoversPath(artifacts, declared, seen, satisfies, path);
    }
  }

  // --------------------------------------------------------------- walk

  class Walk {
    const artifacts: Artifacts
    const satisfies: Satisfies
    ghost const declared: seq<Edge>
    var reachable: set<string>

    constructor (artifacts: Artifacts, ghost declared: seq<Edge>, satisfies: Satisfies)
      ensures this.artifacts == artifacts && this.declared == declared && this.satisfies == satisfies && reachable == {}
    {
      this.artifacts, this.declared, this.satisfies, reachable := artifacts, declared, satisfies, {};
    }

    ghost predicate Valid()
      reads this
    {
      && reachable <= artifacts.Keys
      && forall n | n in reachable :: Reachable(artifacts, declared, n)
    }

    /** False is the thrown error; the walk ends, cyclic dependencies or not. */
    method Visit(e: Edge) returns (ok: bool)
      requires Valid() && InClosure(artifacts, declared, e)
      modifies this`reachable
      ensures Valid() && old(reachable) <= reachable
      ensures ok ==> Followed(artifacts, e, reachable, satisfies)
      ensures ok ==> ClosedSince(artifacts, old(reachable), reachable, satisfies)
      ensures !ok ==> !ClosureMet(artifacts, declared, satisfies)
      decreases |artifacts.Keys - reachable|
    {
      if e.0 !in artifacts {
        return true;
      }
      var artifact := artifacts[e.0];
      if !satisfies(artifact.version, e.1) {
        assert !Met(artifacts, e, satisfies);
        return false;
      }
      if e.0 in reachable {
        return true;
      }
      ClosureReaches(artifacts, declared, e);
      ghost var rest := artifacts.Keys - reachable;
      reachable := reachable + {e.0};
      ghost var entered := reachable;
      Shrinks(artifacts.Keys - reachable, rest, e.0);
      for i := 0 to |artifact.dependencies|
        invariant Valid() && ClosedSince(artifacts, entered, reachable, satisfies)
        invariant AllFollowed(artifacts, artifact.dependencies[..i], reachable, satisfies)
        invariant i == |artifact.dependencies| ==> AllFollowed(artifacts, artifact.dependencies, reachable, satisfies)
      {
        var d := artifact.dependencies[i];
        assert InClosure(artifacts, declared, d);
        ghost var before := reachable;
        Shrinks(artifacts.Keys - reachable, rest, e.0);
        ok := Visit(d);
        if !ok {
          return;
        }
        ClosedChains(artifacts, entered, before, reachable, satisfies);
        FollowedNext(artifacts, artifact.dependencies, i, before, reachable, satisfies);
      }
      assert Closed(artifacts, e.0, reachable, satisfies);
      return true;
    }
  }

  lemma Shrinks(a: set<string>, b: set<string>, x: string)
    requires a <= b && x in b && x !in a
    ensures |a| < |b|
  {
    SubsetSize(a, b - {x});
  }

  lemma {:induction false} SubsetSize(a: set<string>, b: set<string>)
    requires a <= b
    ensures |a| <= |b| && (|a| == |b| ==> a == b)
  {
    if a != {} {
      var x :| x in a;
      SubsetSize(a - {x}, b - {x});
    }
  }

  // --------------------------------------------------------------- check

  datatype Verdict = NoArtifacts | BadIdentity | Unsatisfied | Outside | Overridden | Accepted

  /** The check on the next artifact decides whether the release is identified up to it. */
  lemma IndexNext(release: seq<Artifact>, i: nat)
    requires i < |release| && Identified(release[..i])
    ensures var a := release[i];
            if a.name in ByName(release[..i]) || !a.sound then !Identified(release)
            else Identified(release[..i + 1]) && ByName(release[..i + 1]) == ByName(release[..i])[a.name := a]
  {
    var a := release[i];
    ByNameExactly(release[..i], a.name);
    assert a in release && release[..i + 1] == release[..i] + [a] && release[..i + 1][..i] == release[..i];
    if a.name in ByName(release[..i]) {
      var b :| b in release[..i] && b.name == a.name;
      var j :| 0 <= j < i && release[..i][j] == b;
      assert release[j].name == release[i].name;
    }
  }

  method Index(release: seq<Artifact>) returns (artifacts: Artifacts, ok: bool)
    ensures ok <==> Identified(release)
    ensures ok ==> artifacts == ByName(release)
  {
    artifacts := map[];
    for i := 0 to |release|
      invariant Identified(release[..i]) && artifacts == ByName(release[..i])
    {
      var a := release[i];
      IndexNext(release, i);
      if a.name in artifacts || !a.sound {
        return artifacts, false;
      }
      artifacts := artifacts[a.name := a];
    }
    assert release[..|release|] == release;
    ok := true;
  }

  method CheckOverrides(artifacts: Artifacts, overrides: seq<Edge>, satisfies: Satisfies) returns (ok: bool)
    ensures ok <==> OverridesMet(artifacts, overrides, satisfies)
  {
    for i := 0 to |overrides|
      invariant OverridesMet(artifacts, overrides[..i], satisfies)
    {
      var o, rest := overrides[i], artifacts.Keys;
      while rest != {}
        invariant rest <= artifacts.Keys
        invariant forall n | n in artifacts && n !in rest && Selects(o.0, n) :: satisfies(artifacts[n].version, o.1)
      {
        var n :| n in rest;
        if (o.0 == n || n + "@" <= o.0) && !satisfies(artifacts[n].version, o.1) {
          return false;
        }
        rest := rest - {n};
      }
    }
    assert overrides[..|overrides|] == overrides;
    return true;
  }

  /**
   A release is accepted exactly when its artifacts are the ones reachable from
   the declared dependencies, every edge among them is met, also those back to
   artifacts seen before, and no override is contradicted.
   */
  method CheckRelease(release: seq<Artifact>, declared: seq<Edge>, overrides: seq<Edge>, satisfies: Satisfies)
    returns (verdict: Verdict)
    ensures verdict == Accepted <==>
            && release != [] && Identified(release)
            && (forall a | a in release :: Reachable(ByName(release), declared, a.name))
            && ClosureMet(ByName(release), declared, satisfies)
            && OverridesMet(ByName(release), overrides, satisfies)
    ensures verdict == NoArtifacts <==> release == []
    ensures verdict == BadIdentity ==> !Identified(release)
    ensures verdict == Unsatisfied ==> !ClosureMet(ByName(release), declared, satisfies)
    ensures verdict == Outside ==> exists a | a in release :: !Reachable(ByName(release), declared, a.name)
    ensures verdict == Overridden ==> !OverridesMet(ByName(release), overrides, satisfies)
  {
    if release == [] {
      return NoArtifacts;
    }
    var artifacts, identified := Index(release);
    if !identified {
      return BadIdentity;
    }
    var walk := new Walk(artifacts, declared, satisfies);
    for i := 0 to |declared|
      invariant walk.Valid() && ClosedSince(artifacts, {}, walk.reachable, satisfies)
      invariant AllFollowed(artifacts, declared[..i], walk.reachable, satisfies)
      invariant i == |declared| ==> AllFollowed(artifacts, declared, walk.reachable, satisfies)
    {
      ghost var before := walk.reachable;
      var ok := walk.Visit(declared[i]);
      if !ok {
        return Unsatisfied;
      }
      ClosedChains(artifacts, {}, before, walk.reachable, satisfies);
      FollowedNext(artifacts, declared, i, before, walk.reachable, satisfies);
    }
    ClosedIsClosure(artifacts, declared, walk.reachable, satisfies);
    SubsetSize(walk.reachable, artifacts.Keys);
    if |walk.reachable| != |artifacts| {
      assert artifacts.Keys - walk.reachable != {};
      ghost var n :| n in artifacts.Keys - walk.reachable;
      assert artifacts[n] in release && artifacts[n].name == n;
      return Outside;
    }
    forall a | a in release ensures Reachable(artifacts, declared, a.name) {
      ByNameExactly(release, a.name);
    }
    var compatible := CheckOverrides(artifacts, overrides, satisfies);
    return if compatible then Accepted else Overridden;
  }
}
