/** `collectProjectReferenceFaceViolations`, `projectFace` and `containingSplitRoot` of
    `scripts/project-reference-faces.ts`. */
module ReferenceFaces {
  import opened Options
  import StableSort

  datatype Face = Host | Client

  /** An absolute path, segment by segment. */
  type Path = seq<string>

  /** One tsconfig: the config paths its references name, and the one its `extends` names. */
  datatype Config = Config(references: seq<Path>, parent: Option<Path>)

  /** The config files there are, and the split projects' directories, longest first. */
  datatype World = World(root: Path, configs: map<Path, Config>, splitRoots: seq<Path>)

  function Leaf(face: Face): string {
    if face.Host? then "tsconfig.host.json" else "tsconfig.client.json"
  }

  /** What a config's own name says of its face. */
  function NamedFace(w: World, p: Path): Option<Face> {
    if p != [] && p[|p| - 1] == Leaf(Host) then Some(Host)
    else if p != [] && p[|p| - 1] == Leaf(Client) then Some(Client)
    else if p == w.root + ["tsconfig.base.json"] then Some(Host)
    else if p == w.root + ["tsconfig.base.client.json"] then Some(Client)
    else None
  }

  // ---------------------------------------------------------------- the face of a config

  /** The config at the `n`-th step of the `extends` chain. */
  function Ancestor(w: World, p: Path, n: nat): Option<Path>
    decreases n
  {
    if p !in w.configs then None
    else if n == 0 then Some(p)
    else match w.configs[p].parent
      case None => None
      case Some(q) => Ancestor(w, q, n - 1)
  }

  /** The `n`-th config of the chain is the first one whose name tells a face. */
  ghost predicate FaceAt(w: World, p: Path, n: nat, face: Face) {
    && Ancestor(w, p, n).Some? && NamedFace(w, Ancestor(w, p, n).value) == Some(face)
    && forall k: nat :: k < n && Ancestor(w, p, k).Some? ==> NamedFace(w, Ancestor(w, p, k).value) == None
  }

  /** `projectFace` of an existing config, with the configs already on the chain. */
  function ProjectFace(w: World, p: Path, seen: set<Path>): Option<Face>
    requires p in w.configs
    decreases w.configs.Keys - seen
  {
    if NamedFace(w, p).Some? then NamedFace(w, p)
    else if p in seen then None
    else match w.configs[p].parent
      case None => None
      case Some(q) => if q in w.configs then ProjectFace(w, q, seen + {p}) else None
  }

  lemma {:induction false} FaceIsOnChain(w: World, p: Path, seen: set<Path>) returns (n: nat)
    requires p in w.configs && ProjectFace(w, p, seen).Some?
    ensures FaceAt(w, p, n, ProjectFace(w, p, seen).value)
    decreases w.configs.Keys - seen
  {
    if NamedFace(w, p).Some? {
      n := 0;
    } else {
      var q := w.configs[p].parent.value;
      var m := FaceIsOnChain(w, q, seen + {p});
      n := m + 1;
      forall k: nat | k < n && Ancestor(w, p, k).Some?
        ensures NamedFace(w, Ancestor(w, p, k).value) == None
      {
        if k > 0 {
          assert Ancestor(w, p, k) == Ancestor(w, q, k - 1);
        }
      }
    }
  }

  ghost predicate OnChain(w: World, first: Path, k: nat, x: Path) {
    Ancestor(w, first, k) == Some(x)
  }

  ghost predicate Passed(w: World, first: Path, steps: nat, x: Path) {
    exists k: nat :: k < steps && OnChain(w, first, k, x)
  }

  /** Everything on `seen` lies on the chain before `p`, and none of it is named. */
  ghost predicate CameThrough(w: World, first: Path, p: Path, steps: nat, seen: set<Path>) {
    && Ancestor(w, first, steps) == Some(p)
    && (forall k: nat :: k < steps ==> Ancestor(w, first, k).Some? && NamedFace(w, Ancestor(w, first, k).value) == None)
    && (forall x :: x in seen <==> Passed(w, first, steps, x))
  }

  lemma {:induction false} AncestorNext(w: World, p: Path, n: nat)
    requires Ancestor(w, p, n).Some?
    ensures Ancestor(w, p, n).value in w.configs
    ensures Ancestor(w, p, n + 1) ==
      var q := Ancestor(w, p, n).value;
      match w.configs[q].parent case None => None case Some(r) => if r in w.configs then Some(r) else None
    decreases n
  {
    if n > 0 {
      AncestorNext(w, w.configs[p].parent.value, n - 1);
    } else if w.configs[p].parent.Some? {
      var q := w.configs[p].parent.value;
      assert Ancestor(w, p, 1) == Ancestor(w, q, 0);
    }
  }

  /** After a repeat the chain cycles: nothing new, so nothing named, ever comes. */
  lemma {:induction false} ChainRepeats(w: World, first: Path, i: nat, j: nat, n: nat)
    requires i < j && Ancestor(w, first, i).Some? && Ancestor(w, first, i) == Ancestor(w, first, j)
    requires forall k: nat :: k < j ==> Ancestor(w, first, k).Some? && NamedFace(w, Ancestor(w, first, k).value) == None
    ensures exists k: nat :: k < j && Ancestor(w, first, n) == Ancestor(w, first, k)
    decreases n
  {
    if n >= j {
      ChainRepeats(w, first, i, j, n - 1);
      var k: nat :| k < j && Ancestor(w, first, n - 1) == Ancestor(w, first, k);
      AncestorNext(w, first, n - 1);
      AncestorNext(w, first, k);
      assert Ancestor(w, first, n) == Ancestor(w, first, k + 1);
      if k + 1 == j {
        assert Ancestor(w, first, n) == Ancestor(w, first, i);
      }
    }
  }

  lemma {:induction false} NoParentNoMore(w: World, first: Path, steps: nat, n: nat)
    requires steps < n && Ancestor(w, first, steps + 1) == None
    ensures Ancestor(w, first, n) == None
    decreases n
  {
    if n > steps + 1 {
      NoParentNoMore(w, first, steps, n - 1);
      if Ancestor(w, first, n).Some? {
        AncestorBefore(w, first, n);
      }
    }
  }

  lemma {:induction false} AncestorBefore(w: World, p: Path, n: nat)
    requires n > 0 && Ancestor(w, p, n).Some?
    ensures Ancestor(w, p, n - 1).Some?
    decreases n
  {
    if n > 1 {
      AncestorBefore(w, w.configs[p].parent.value, n - 1);
    }
  }

  /** `projectFace` gives up only when no config of the whole chain names a face. */
  lemma {:induction false} NoFaceOnChain(w: World, first: Path, p: Path, steps: nat, seen: set<Path>, n: nat)
    requires p in w.configs && CameThrough(w, first, p, steps, seen)
    requires ProjectFace(w, p, seen) == None
    ensures Ancestor(w, first, n).Some? ==> NamedFace(w, Ancestor(w, first, n).value) == None
    decreases w.configs.Keys - seen
  {
    AncestorNext(w, first, steps);
    if p in seen {
      assert Passed(w, first, steps, p);
      var i: nat :| i < steps && OnChain(w, first, i, p);
      ChainRepeats(w, first, i, steps, n);
    } else if w.configs[p].parent.Some? && w.configs[p].parent.value in w.configs {
      var q := w.configs[p].parent.value;
      CameFurther(w, first, p, steps, seen);
      NoFaceOnChain(w, first, q, steps + 1, seen + {p}, n);
    } else if n > steps {
      NoParentNoMore(w, first, steps, n);
    }
  }

  lemma CameFurther(w: World, first: Path, p: Path, steps: nat, seen: set<Path>)
    requires p in w.configs && CameThrough(w, first, p, steps, seen) && NamedFace(w, p) == None
    requires w.configs[p].parent.Some? && w.configs[p].parent.value in w.configs
    ensures CameThrough(w, first, w.configs[p].parent.value, steps + 1, seen + {p})
  {
    AncestorNext(w, first, steps);
    forall x
      ensures x in seen + {p} <==> Passed(w, first, steps + 1, x)
    {
      assert OnChain(w, first, steps, p);
      if x in seen {
        var k: nat :| k < steps && OnChain(w, first, k, x);
        assert k < steps + 1;
      } else if Passed(w, first, steps + 1, x) {
        var k: nat :| k < steps + 1 && OnChain(w, first, k, x);
        assert k < steps ==> Passed(w, first, steps, x);
      }
    }
  }

  /** The face of a config: its own name's, or the nearest named ancestor's; none if none is named. */
  ghost predicate HasFace(w: World, p: Path, face: Option<Face>) {
    match face
    case Some(f) => exists n: nat :: FaceAt(w, p, n, f)
    case None => forall n: nat :: Ancestor(w, p, n).Some? ==> NamedFace(w, Ancestor(w, p, n).value) == None
  }

  lemma FaceIsNearest(w: World, p: Path)
    requires p in w.configs
    ensures HasFace(w, p, ProjectFace(w, p, {}))
  {
    if ProjectFace(w, p, {}).Some? {
      var n := FaceIsOnChain(w, p, {});
    } else {
      forall n: nat | Ancestor(w, p, n).Some?
        ensures NamedFace(w, Ancestor(w, p, n).value) == None
      {
        NoFaceOnChain(w, p, p, 0, {}, n);
      }
    }
  }

  // ---------------------------------------------------------------- split projects

  predicate Inside(dir: Path, p: Path) {
    dir <= p
  }

  /** `splitRoots.find(...)`: the first directory that holds the target. */
  function ContainingSplitRoot(roots: seq<Path>, target: Path): (r: Option<Path>)
    ensures r.Some? ==> r.value in roots && Inside(r.value, target)
    ensures r.None? ==> forall d :: d in roots ==> !Inside(d, target)
  {
    if roots == [] then None
    else if Inside(roots[0], target) then Some(roots[0])
    else
      assert forall d :: d in roots ==> d == roots[0] || d in roots[1..];
      ContainingSplitRoot(roots[1..], target)
  }

  /** The length of the path as a string, each segment behind its separator. */
  function Length(p: Path): nat {
    if p == [] then 0 else Length(p[..|p| - 1]) + 1 + |p[|p| - 1]|
  }

  ghost predicate LongestFirst(roots: seq<Path>) {
    forall i, j :: 0 <= i < j < |roots| ==> Length(roots[j]) <= Length(roots[i])
  }

  /** `sort((left, right) => right.length - left.length)` */
  function SplitRoots(dirs: seq<Path>): seq<Path> {
    StableSort.Sort(dirs, (left, right) => Length(right) - Length(left))
  }

  lemma SplitRootsLongestFirst(dirs: seq<Path>)
    ensures LongestFirst(SplitRoots(dirs)) && forall d :: d in SplitRoots(dirs) <==> d in dirs
  {
    var cmp := (left, right) => Length(right) - Length(left);
    StableSort.SortOrders(dirs, cmp);
    StableSort.SortMembers(dirs, cmp);
    var roots := SplitRoots(dirs);
    forall i, j | 0 <= i < j < |roots|
      ensures Length(roots[j]) <= Length(roots[i])
    {
      assert cmp(roots[i], roots[j]) <= 0;
    }
  }

  lemma {:induction false} PrefixIsShorter(a: Path, b: Path)
    requires a < b
    ensures Length(a) < Length(b)
  {
    var front := b[..|b| - 1];
    if a < front {
      PrefixIsShorter(a, front);
    } else {
      assert a == front;
    }
  }

  /** Of two directories that hold the target the longer one lies in the other. */
  lemma NestedByLength(d: Path, r: Path, target: Path)
    requires Inside(d, target) && Inside(r, target) && Length(d) <= Length(r)
    ensures d <= r
  {
    assert d == target[..|d|] && r == target[..|r|];
    if |d| <= |r| {
      assert d == r[..|d|];
    } else {
      assert r == d[..|r|];
      PrefixIsShorter(r, d);
    }
  }

  /** With the longest directories first, the one found is the innermost. */
  lemma {:induction false} InnermostSplitRoot(roots: seq<Path>, target: Path)
    requires LongestFirst(roots) && ContainingSplitRoot(roots, target).Some?
    ensures forall d :: d in roots && Inside(d, target) ==> d <= ContainingSplitRoot(roots, target).value
  {
    var r := ContainingSplitRoot(roots, target).value;
    forall d | d in roots && Inside(d, target)
      ensures d <= r
    {
      if Inside(roots[0], target) {
        var i :| 0 <= i < |roots| && roots[i] == d;
        NestedByLength(d, r, target);
      } else {
        assert d in roots[1..];
        InnermostSplitRoot(roots[1..], target);
      }
    }
  }

  /** What a reference from `source` to `target` must satisfy. */
  predicate EdgeFits(w: World, source: Path, target: Path)
    requires source in w.configs
  {
    match ContainingSplitRoot(w.splitRoots, target)
    case None => true
    case Some(dir) => ProjectFace(w, source, {}).Some? && target == dir + [Leaf(ProjectFace(w, source, {}).value)]
  }

  // ---------------------------------------------------------------- the reference graph

  predicate Refers(w: World, source: Path, target: Path) {
    source in w.configs && target in w.configs[source].references
  }

  predicate Hop(w: World, p: seq<Path>, i: nat)
    requires i + 1 < |p|
  {
    Refers(w, p[i], p[i + 1]) && p[i + 1] in w.configs
  }

  ghost predicate Walk(w: World, p: seq<Path>) {
    p != [] && p[0] in w.configs && forall i {:trigger Hop(w, p, i)} :: 0 <= i < |p| - 1 ==> Hop(w, p, i)
  }

  function Aggregates(w: World): seq<Path> {
    [w.root + ["tsconfig.host.json"], w.root + ["tsconfig.client.json"]]
  }

  /** Reachable from an aggregate over any references, mismatched ones included. */
  ghost predicate Reachable(w: World, c: Path) {
    exists p :: Walk(w, p) && p[0] in Aggregates(w) && p[|p| - 1] == c
  }

  ghost predicate FollowedWalk(w: World, p: seq<Path>) {
    && Walk(w, p) && p[0] in Aggregates(w)
    && forall i {:trigger Hop(w, p, i)} :: 0 <= i < |p| - 1 ==> Hop(w, p, i) && EdgeFits(w, p[i], p[i + 1])
  }

  /** Reachable from an aggregate over references that fit: these the traversal follows. */
  ghost predicate Followed(w: World, c: Path) {
    exists p :: FollowedWalk(w, p) && p[|p| - 1] == c
  }

  lemma FollowedIsReachable(w: World, c: Path)
    requires Followed(w, c)
    ensures Reachable(w, c) && c in w.configs
  {
    var p :| FollowedWalk(w, p) && p[|p| - 1] == c;
    assert Walk(w, p);
    if |p| > 1 {
      assert Hop(w, p, |p| - 2);
    }
  }

  lemma FollowedNext(w: World, c: Path, t: Path)
    requires Followed(w, c) && Refers(w, c, t) && EdgeFits(w, c, t) && t in w.configs
    ensures Followed(w, t)
  {
    hide EdgeFits;
    var p :| FollowedWalk(w, p) && p[|p| - 1] == c;
    var q := p + [t];
    forall i | 0 <= i < |q| - 1
      ensures Hop(w, q, i) && EdgeFits(w, q[i], q[i + 1])
    {
      if i < |p| - 1 {
        assert Hop(w, p, i);
      }
    }
    assert Walk(w, q) && FollowedWalk(w, q) && q[|q| - 1] == t;
  }

  lemma FollowedRoot(w: World, c: Path)
    requires c in Aggregates(w) && c in w.configs
    ensures Followed(w, c)
  {
    assert FollowedWalk(w, [c]);
  }

  ghost predicate AllEdgesFit(w: World) {
    forall c, t :: Reachable(w, c) && Refers(w, c, t) ==> EdgeFits(w, c, t)
  }

  /** `Wrong(source, target)`: a reported reference. */
  datatype Violation = Wrong(source: Path, target: Path)

  ghost predicate RealViolation(w: World, v: Violation) {
    Followed(w, v.source) && Refers(w, v.source, v.target) && !EdgeFits(w, v.source, v.target)
  }

  /** The traversal between two pops. */
  ghost predicate Inv(w: World, pending: seq<Path>, visited: set<Path>, violations: seq<Violation>) {
    && visited <= w.configs.Keys
    && (forall c :: c in visited ==> Followed(w, c))
    && (forall c :: c in pending && c in w.configs ==> Followed(w, c))
    && (forall c :: c in Aggregates(w) && c in w.configs ==> c in visited || c in pending)
    && (forall v :: v in violations ==> RealViolation(w, v))
    && (forall c, t :: c in visited && Refers(w, c, t) && EdgeFits(w, c, t) && t in w.configs ==>
        t in visited || t in pending)
    && (forall c, t :: c in visited && Refers(w, c, t) && !EdgeFits(w, c, t) ==> Wrong(c, t) in violations)
  }

  /** A silent traversal has followed every edge, so it has seen everything reachable. */
  lemma SilentSeesAll(w: World, visited: set<Path>, c: Path)
    requires Inv(w, [], visited, []) && Reachable(w, c)
    ensures c in visited
  {
    var p :| Walk(w, p) && p[0] in Aggregates(w) && p[|p| - 1] == c;
    var i := 0;
    while i < |p| - 1
      invariant 0 <= i < |p| && p[i] in visited
    {
      assert Hop(w, p, i);
      assert EdgeFits(w, p[i], p[i + 1]);
      i := i + 1;
    }
  }

  /** The references of one config, those that fit to be visited, the others to be reported. */
  method CheckReferences(w: World, source: Path, pending0: seq<Path>, violations0: seq<Violation>)
    returns (pending: seq<Path>, violations: seq<Violation>)
    requires source in w.configs
    ensures forall t :: t in pending <==> t in pending0 || (Refers(w, source, t) && EdgeFits(w, source, t))
    ensures forall v :: v in violations <==>
      || v in violations0
      || (v.source == source && Refers(w, source, v.target) && !EdgeFits(w, source, v.target))
  {
    var references := w.configs[source].references;
    var face := ProjectFace(w, source, {});
    pending, violations := pending0, violations0;
    for i := 0 to |references|
      invariant forall t :: t in pending <==> t in pending0 || (t in references[..i] && EdgeFits(w, source, t))
      invariant forall v :: v in violations <==>
        || v in violations0
        || (v.source == source && v.target in references[..i] && !EdgeFits(w, source, v.target))
    {
      var target := references[i];
      assert references[..i + 1] == references[..i] + [target];
      var splitRoot := ContainingSplitRoot(w.splitRoots, target);
      if splitRoot.Some? {
        if face.None? {
          violations := violations + [Wrong(source, target)];
          continue;
        }
        var expected := splitRoot.value + [Leaf(face.value)];
        if target != expected {
          violations := violations + [Wrong(source, target)];
          continue;
        }
      }
      pending := pending + [target];
    }
    assert references[..|references|] == references;
  }

  /** The list has exactly the references that do not fit of the configs reached over fitting ones.
      Although mismatched references are not followed, it is empty exactly when every reference
      reachable over any references fits. */
  method CollectViolations(w: World) returns (violations: seq<Violation>)
    ensures forall v :: v in violations <==> RealViolation(w, v)
    ensures violations == [] <==> AllEdgesFit(w)
    ensures LongestFirst(w.splitRoots) ==>
      && (forall v :: v in violations <==>
            Followed(w, v.source) && Refers(w, v.source, v.target) && !MayRefer(w, v.source, v.target))
      && (violations == [] <==> AllMayRefer(w))
  {
    hide Reachable, Followed, EdgeFits, AllEdgesFit, MayRefer, AllMayRefer, RealViolation, LongestFirst;
    violations := [];
    var pending := Aggregates(w);
    var visited: set<Path> := {};
    forall c | c in pending && c in w.configs
      ensures Followed(w, c)
    {
      FollowedRoot(w, c);
    }
    while pending != []
      invariant Inv(w, pending, visited, violations)
      decreases w.configs.Keys - visited, |pending|
    {
      var configPath, rest := pending[|pending| - 1], pending[..|pending| - 1];
      assert pending == rest + [configPath];
      if configPath in visited || configPath !in w.configs {
        SkipKeeps(w, rest, configPath, visited, violations);
        pending := rest;
        continue;
      }
      var more, found := CheckReferences(w, configPath, rest, violations);
      VisitKeeps(w, rest, configPath, visited, violations, more, found);
      visited, pending, violations := visited + {configPath}, more, found;
    }
    Verdict(w, visited, violations);
    AllReported(w, visited, violations);
    if LongestFirst(w.splitRoots) {
      ReportsMeanIt(w, violations);
    }
  }

  lemma SkipKeeps(w: World, rest: seq<Path>, c: Path, visited: set<Path>, violations: seq<Violation>)
    requires Inv(w, rest + [c], visited, violations) && (c in visited || c !in w.configs)
    ensures Inv(w, rest, visited, violations)
  {
    hide Followed, EdgeFits;
    assert forall x :: x in rest ==> x in rest + [c];
  }

  lemma VisitKeeps(w: World, rest: seq<Path>, c: Path, visited: set<Path>, violations: seq<Violation>, more: seq<Path>,
          found: seq<Violation>)
    requires Inv(w, rest + [c], visited, violations) && c in w.configs
    requires forall t :: t in more <==> t in rest || (Refers(w, c, t) && EdgeFits(w, c, t))
    requires forall v :: v in found <==>
      || v in violations
      || (v.source == c && Refers(w, c, v.target) && !EdgeFits(w, c, v.target))
    ensures Inv(w, more, visited + {c}, found)
  {
    hide Followed, EdgeFits;
    assert c in rest + [c];
    forall t | t in more && t in w.configs
      ensures Followed(w, t)
    {
      if t in rest {
        assert t in rest + [c];
      } else {
        FollowedNext(w, c, t);
      }
    }
    assert forall x :: x in rest + [c] ==> x in rest || x == c;
  }

  lemma Verdict(w: World, visited: set<Path>, violations: seq<Violation>)
    requires Inv(w, [], visited, violations)
    ensures violations == [] <==> AllEdgesFit(w)
  {
    hide Reachable, Followed, EdgeFits;
    if violations == [] {
      forall c, t | Reachable(w, c) && Refers(w, c, t)
        ensures EdgeFits(w, c, t)
      {
        SilentSeesAll(w, visited, c);
      }
    } else {
      assert RealViolation(w, violations[0]);
      FollowedIsReachable(w, violations[0].source);
    }
  }

  /** A finished traversal has visited every config reached over fitting references. */
  lemma FollowedIsVisited(w: World, visited: set<Path>, violations: seq<Violation>, c: Path)
    requires Inv(w, [], visited, violations) && Followed(w, c)
    ensures c in visited
  {
    hide EdgeFits;
    var p :| FollowedWalk(w, p) && p[|p| - 1] == c;
    var i := 0;
    while i < |p| - 1
      invariant 0 <= i < |p| && p[i] in visited
    {
      assert Hop(w, p, i);
      i := i + 1;
    }
  }

  lemma AllReported(w: World, visited: set<Path>, violations: seq<Violation>)
    requires Inv(w, [], visited, violations)
    ensures forall v :: v in violations <==> RealViolation(w, v)
  {
    hide EdgeFits, Followed;
    forall v | RealViolation(w, v)
      ensures v in violations
    {
      FollowedIsVisited(w, visited, violations, v.source);
      assert Wrong(v.source, v.target) in violations;
    }
  }

  // ---------------------------------------------------------------- the rule, by name

  predicate EndsWith(p: Path, name: string) {
    p != [] && p[|p| - 1] == name
  }

  /** The names that tell a face. */
  predicate Tells(w: World, p: Path, face: Face) {
    match face
    case Host => EndsWith(p, "tsconfig.host.json") || p == w.root + ["tsconfig.base.json"]
    case Client => EndsWith(p, "tsconfig.client.json") || p == w.root + ["tsconfig.base.client.json"]
  }

  lemma TellsIff(w: World, p: Path, face: Face)
    ensures NamedFace(w, p) == Some(face) <==> Tells(w, p, face)
  {
    var a, b := w.root + ["tsconfig.base.json"], w.root + ["tsconfig.base.client.json"];
    assert a[|a| - 1] == "tsconfig.base.json" && b[|b| - 1] == "tsconfig.base.client.json";
  }

  /** The name tells no face. */
  ghost predicate Silent(w: World, p: Path) {
    forall face :: !Tells(w, p, face)
  }

  lemma SilentIff(w: World, p: Path)
    ensures NamedFace(w, p) == None <==> Silent(w, p)
  {
    hide NamedFace, Tells;
    forall face
      ensures NamedFace(w, p) == Some(face) <==> Tells(w, p, face)
    {
      TellsIff(w, p, face);
    }
    if NamedFace(w, p).Some? {
      assert Tells(w, p, NamedFace(w, p).value);
    }
  }

  /** The nearest config of the `extends` chain whose name tells a face tells this one. */
  ghost predicate Faces(w: World, p: Path, face: Face) {
    exists n: nat :: NearestTells(w, p, n, face)
  }

  ghost predicate NearestTells(w: World, p: Path, n: nat, face: Face) {
    && Ancestor(w, p, n).Some? && Tells(w, Ancestor(w, p, n).value, face)
    && forall k: nat :: k < n && Ancestor(w, p, k).Some? ==> Silent(w, Ancestor(w, p, k).value)
  }

  lemma NearestIff(w: World, p: Path, n: nat, face: Face)
    ensures FaceAt(w, p, n, face) <==> NearestTells(w, p, n, face)
  {
    hide NamedFace, Tells, Silent;
    if Ancestor(w, p, n).Some? {
      TellsIff(w, Ancestor(w, p, n).value, face);
    }
    forall k: nat | k < n && Ancestor(w, p, k).Some?
      ensures NamedFace(w, Ancestor(w, p, k).value) == None <==> Silent(w, Ancestor(w, p, k).value)
    {
      SilentIff(w, Ancestor(w, p, k).value);
    }
  }

  lemma OneFace(w: World, p: Path, n: nat, m: nat, face: Face, other: Face)
    requires FaceAt(w, p, n, face) && FaceAt(w, p, m, other)
    ensures face == other
  {
  }

  lemma FaceIff(w: World, p: Path, face: Face)
    requires p in w.configs
    ensures ProjectFace(w, p, {}) == Some(face) <==> Faces(w, p, face)
  {
    hide NamedFace, ProjectFace, FaceAt, NearestTells;
    FaceIsNearest(w, p);
    if ProjectFace(w, p, {}).Some? {
      var m: nat :| FaceAt(w, p, m, ProjectFace(w, p, {}).value);
      NearestIff(w, p, m, ProjectFace(w, p, {}).value);
      if Faces(w, p, face) {
        var n: nat :| NearestTells(w, p, n, face);
        NearestIff(w, p, n, face);
        OneFace(w, p, n, m, face, ProjectFace(w, p, {}).value);
      }
    } else if n: nat :| NearestTells(w, p, n, face) {
      NearestIff(w, p, n, face);
      FaceAtSome(w, p, n, face);
    }
  }

  lemma FaceAtSome(w: World, p: Path, n: nat, face: Face)
    requires FaceAt(w, p, n, face)
    ensures Ancestor(w, p, n).Some? && NamedFace(w, Ancestor(w, p, n).value).Some?
  {
  }

  /** The split project the target lies in, the innermost one where they nest. */
  ghost predicate Innermost(w: World, dir: Path, target: Path) {
    dir in w.splitRoots && dir <= target && forall d :: d in w.splitRoots && d <= target ==> d <= dir
  }

  /** A reference into a split project names the leaf of the referring config's own face. */
  ghost predicate MayRefer(w: World, source: Path, target: Path) {
    forall dir :: Innermost(w, dir, target) ==>
      || (Faces(w, source, Host) && target == dir + ["tsconfig.host.json"])
      || (Faces(w, source, Client) && target == dir + ["tsconfig.client.json"])
  }

  ghost predicate AllMayRefer(w: World) {
    forall c, t :: Reachable(w, c) && Refers(w, c, t) ==> MayRefer(w, c, t)
  }

  lemma InnermostIs(w: World, target: Path, dir: Path)
    requires LongestFirst(w.splitRoots)
    ensures ContainingSplitRoot(w.splitRoots, target) == Some(dir) <==> Innermost(w, dir, target)
  {
    var r := ContainingSplitRoot(w.splitRoots, target);
    assert forall d :: d in w.splitRoots ==> (Inside(d, target) <==> d <= target);
    if r.Some? {
      InnermostSplitRoot(w.splitRoots, target);
      if Innermost(w, dir, target) {
        assert r.value <= dir && dir <= r.value;
        Mutually(dir, r.value);
      }
    }
  }

  lemma Mutually(a: Path, b: Path)
    requires a <= b && b <= a
    ensures a == b
  {
  }

  lemma FitsIff(w: World, source: Path, target: Path)
    requires LongestFirst(w.splitRoots) && source in w.configs
    ensures EdgeFits(w, source, target) <==> MayRefer(w, source, target)
  {
    hide LongestFirst, Faces, ProjectFace, Innermost, ContainingSplitRoot;
    FaceIff(w, source, Host);
    FaceIff(w, source, Client);
    forall dir
      ensures ContainingSplitRoot(w.splitRoots, target) == Some(dir) <==> Innermost(w, dir, target)
    {
      InnermostIs(w, target, dir);
    }
    if ContainingSplitRoot(w.splitRoots, target).Some? {
      assert Innermost(w, ContainingSplitRoot(w.splitRoots, target).value, target);
    }
  }

  lemma ReportsMeanIt(w: World, violations: seq<Violation>)
    requires LongestFirst(w.splitRoots)
    requires forall v :: v in violations <==> RealViolation(w, v)
    ensures forall v :: v in violations <==>
      Followed(w, v.source) && Refers(w, v.source, v.target) && !MayRefer(w, v.source, v.target)
    ensures AllEdgesFit(w) <==> AllMayRefer(w)
  {
    hide LongestFirst, EdgeFits, MayRefer, Reachable, Followed;
    forall c, t | Refers(w, c, t)
      ensures EdgeFits(w, c, t) <==> MayRefer(w, c, t)
    {
      FitsIff(w, c, t);
    }
  }
}
