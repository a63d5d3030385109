/** `topoSort` and `comparePackages` of `scripts/package-graph.ts`. */
module TopoSort {
  import Counting
  import opened Numbers
  import opened PackageGraph
  import opened SinkCycles
  import opened Locale
  import StableSort

  // ---------------------------------------------------------------- the order of packages

  datatype Order = Order(groupOrder: seq<string>, locale: Collation)

  /** `Array.prototype.indexOf`. */
  function IndexOf(s: seq<string>, x: string): int {
    if s == [] then -1
    else if s[0] == x then 0
    else var i := IndexOf(s[1..], x); if i == -1 then -1 else i + 1
  }

  function Rank(o: Order, group: string): int {
    var i := IndexOf(o.groupOrder, group);
    if i == -1 then MAX_SAFE_INTEGER else i
  }

  function ComparePackages(o: Order, a: Package, b: Package): int {
    var d := Rank(o, a.group) - Rank(o, b.group);
    if d != 0 then d
    else
      var g := (o.locale)(a.group, b.group);
      if g != 0 then g else (o.locale)(a.short, b.short)
  }

  predicate Before(o: Order, a: Package, b: Package) {
    ComparePackages(o, a, b) < 0
  }

  lemma CompareTotal(o: Order, a: Package, b: Package)
    requires IsCollation(o.locale)
    ensures ComparePackages(o, a, b) == 0 ==> a.short == b.short
    ensures ComparePackages(o, a, a) == 0
    ensures Before(o, a, b) <==> ComparePackages(o, b, a) > 0
    ensures a.short != b.short ==> Before(o, a, b) || Before(o, b, a)
  {
  }

  lemma CompareTransitive(o: Order, a: Package, b: Package, c: Package)
    requires IsCollation(o.locale) && Before(o, a, b) && Before(o, b, c)
    ensures Before(o, a, c)
  {
  }

  ghost predicate Ascending(o: Order, s: seq<Package>) {
    forall i, j :: 0 <= i < j < |s| ==> Before(o, s[i], s[j])
  }

  /** One set of packages has one ascending listing. */
  lemma {:induction false} AscendingUnique(o: Order, s: seq<Package>, t: seq<Package>)
    requires IsCollation(o.locale) && Ascending(o, s) && Ascending(o, t)
    requires forall p :: p in s <==> p in t
    ensures s == t
  {
    if s == [] {
      HasMember(t);
    } else {
      assert s[0] in t;
      assert t[0] in s;
      SameHead(o, s, t);
      TailMembers(o, s);
      TailMembers(o, t);
      AscendingUnique(o, s[1..], t[1..]);
      assert s == [s[0]] + s[1..] && t == [t[0]] + t[1..];
    }
  }

  lemma HasMember(s: seq<Package>)
    ensures s == [] || exists p :: p in s
  {
    if s != [] {
      assert s[0] in s;
    }
  }

  lemma SameHead(o: Order, s: seq<Package>, t: seq<Package>)
    requires IsCollation(o.locale) && Ascending(o, s) && Ascending(o, t)
    requires s != [] && t != [] && s[0] in t && t[0] in s
    ensures s[0] == t[0]
  {
  }

  lemma TailMembers(o: Order, s: seq<Package>)
    requires IsCollation(o.locale) && Ascending(o, s) && s != []
    ensures forall p :: p in s[1..] <==> p in s && p != s[0]
  {
  }

  ghost predicate DistinctNames(s: seq<Package>) {
    forall i, j :: 0 <= i < j < |s| ==> s[i].short != s[j].short
  }

  /** `[...packages].sort((a, b) => comparePackages(a, b, groupOrder))` */
  function SortPackages(o: Order, s: seq<Package>): seq<Package> {
    StableSort.Sort(s, (a, b) => ComparePackages(o, a, b))
  }

  lemma CompareWeaklyTransitive(o: Order, a: Package, b: Package, c: Package)
    requires IsCollation(o.locale)
    requires ComparePackages(o, a, b) <= 0 && ComparePackages(o, b, c) <= 0
    ensures ComparePackages(o, a, c) <= 0
  {
  }

  lemma SortPackagesAscends(o: Order, s: seq<Package>)
    requires IsCollation(o.locale) && DistinctNames(s)
    ensures forall p :: p in SortPackages(o, s) <==> p in s
    ensures Ascending(o, SortPackages(o, s))
  {
    var cmp := (a, b) => ComparePackages(o, a, b);
    var t := SortPackages(o, s);
    assert StableSort.Preorder(s, cmp) by {
      forall a, b
        ensures cmp(a, b) <= 0 || cmp(b, a) <= 0
      {
        CompareTotal(o, a, b);
      }
      forall a, b, c | cmp(a, b) <= 0 && cmp(b, c) <= 0
        ensures cmp(a, c) <= 0
      {
        CompareWeaklyTransitive(o, a, b, c);
      }
    }
    StableSort.SortOrders(s, cmp);
    StableSort.SortMembers(s, cmp);
    StableSort.SortPermutes(s, cmp);
    SortedNames(s, t);
    forall i, j | 0 <= i < j < |t|
      ensures Before(o, t[i], t[j])
    {
      assert cmp(t[i], t[j]) <= 0;
      CompareTotal(o, t[i], t[j]);
    }
  }

  /** A rearrangement of packages with distinct names has distinct names. */
  lemma SortedNames(s: seq<Package>, t: seq<Package>)
    requires multiset(s) == multiset(t) && DistinctNames(s)
    ensures DistinctNames(t)
  {
    StableSort.SameElements(s, t);
    forall i, j | 0 <= i < j < |t|
      ensures t[i].short != t[j].short
    {
      if t[i].short == t[j].short {
        assert t[i] in s && t[j] in s;
        var x :| 0 <= x < |s| && s[x] == t[i];
        var y :| 0 <= y < |s| && s[y] == t[j];
        assert x == y;
        Counting.OccursTwice(t, i, j);
        Counting.OccursOnce(s, x);
      }
    }
  }

  // ---------------------------------------------------------------- the specified order

  ghost function Restrict(g: Graph, names: set<string>): Graph {
    map k | k in g && k in names :: g[k]
  }

  /** Remaining packages none of whose dependencies remains. */
  ghost function Ready(g: Graph, remaining: set<string>): set<string> {
    set u | u in remaining && u in g && forall d :: d in g[u].deps ==> d !in remaining
  }

  ghost predicate InSinkCycle(g: Graph, u: string) {
    exists c :: SinkCycle(g, c) && u in c
  }

  ghost function CycleMembers(g: Graph): set<string> {
    set u | u in g && InSinkCycle(g, u)
  }

  ghost function SccOf(g: Graph, u: string): set<string> {
    set v | v in g && Mutual(g, u, v)
  }

  ghost predicate Least(o: Order, g: Graph, s: set<string>, m: string) {
    && m in s && m in g
    && forall u :: u in s && u in g && u != m ==> Before(o, g[m], g[u])
  }

  lemma LeastExists(o: Order, g: Graph, s: set<string>)
    requires IsCollation(o.locale) && Keyed(g) && s != {} && s <= g.Keys
    ensures exists m :: Least(o, g, s, m)
  {
    var m :| m in s;
    var todo := s - {m};
    while todo != {}
      invariant m in s && todo <= s
      invariant forall u :: u in s && u !in todo && u != m ==> Before(o, g[m], g[u])
      decreases todo
    {
      var w :| w in todo;
      todo := todo - {w};
      if Before(o, g[w], g[m]) {
        forall u | u in s && u !in todo && u != w
          ensures Before(o, g[w], g[u])
        {
          if u != m {
            CompareTransitive(o, g[w], g[m], g[u]);
          }
        }
        m := w;
      } else {
        CompareTotal(o, g[w], g[m]);
      }
    }
    assert Least(o, g, s, m);
  }

  ghost predicate Stuck(g: Graph, o: Order, remaining: set<string>) {
    && Keyed(g) && DepsPresent(g) && IsCollation(o.locale)
    && remaining <= g.Keys && remaining != {} && Ready(g, remaining) == {}
  }

  lemma StuckWaits(g: Graph, o: Order, remaining: set<string>, u: string)
    requires Stuck(g, o, remaining) && u in remaining
    ensures Waits(Restrict(g, remaining), u)
  {
    assert u !in Ready(g, remaining);
    var d :| d in g[u].deps && d in remaining;
    assert Edge(Restrict(g, remaining), u, d);
  }

  lemma MembersOfCycle(g: Graph, c: set<string>)
    requires SinkCycle(g, c)
    ensures CycleMembers(g) != {}
  {
  }

  /** A stuck graph has a package in a sink cycle: `sinkCycles` cannot come back empty. */
  lemma StuckHasCycle(g: Graph, o: Order, remaining: set<string>)
    requires Stuck(g, o, remaining)
    ensures exists m :: Least(o, Restrict(g, remaining), CycleMembers(Restrict(g, remaining)), m)
  {
    hide SinkCycle, IsCollation, CycleMembers, Waits, DepsPresent, Ready;
    var h := Restrict(g, remaining);
    assert h.Keys == remaining;
    forall u | u in h
      ensures Waits(h, u)
    {
      StuckWaits(g, o, remaining, u);
    }
    var c := SinkCycleExists(h);
    MembersOfCycle(h, c);
    CycleMembersInside(h);
    LeastExists(o, h, CycleMembers(h));
  }

  lemma CycleMembersInside(g: Graph)
    ensures CycleMembers(g) <= g.Keys
  {
  }

  lemma SccOfMember(g: Graph, c: set<string>, u: string)
    requires IsScc(g, c) && u in c
    ensures SccOf(g, u) == c
  {
  }

  /** The sink cycle whose least package comes first. */
  ghost function FirstSinkCycle(g: Graph, o: Order, remaining: set<string>): (c: set<string>)
    requires Stuck(g, o, remaining)
    ensures SinkCycle(Restrict(g, remaining), c)
    ensures c != {} && c <= remaining
    ensures exists m :: m in c && Least(o, Restrict(g, remaining), CycleMembers(Restrict(g, remaining)), m)
  {
    var h := Restrict(g, remaining);
    StuckHasCycle(g, o, remaining);
    var m :| Least(o, h, CycleMembers(h), m);
    var c :| SinkCycle(h, c) && m in c;
    SccOfMember(h, c, m);
    SccOf(h, m)
  }

  /** What one round of the loop places. */
  ghost function NextBlock(g: Graph, o: Order, remaining: set<string>): (b: set<string>)
    requires Keyed(g) && DepsPresent(g) && IsCollation(o.locale)
    requires remaining <= g.Keys && remaining != {}
    ensures b != {} && b <= remaining
  {
    if Ready(g, remaining) != {} then Ready(g, remaining) else FirstSinkCycle(g, o, remaining)
  }

  /** The packages named, in `comparePackages` order. */
  ghost function Ranked(g: Graph, o: Order, names: set<string>): (s: seq<Package>)
    requires Keyed(g) && IsCollation(o.locale) && names <= g.Keys
    ensures forall p :: p in s <==> p.short in names && g[p.short] == p
    ensures Ascending(o, s)
    decreases names
  {
    if names == {} then [] else
      LeastExists(o, g, names);
      var m :| Least(o, g, names, m);
      [g[m]] + Ranked(g, o, names - {m})
  }

  /** The dependency-first order of the packages named in `remaining`. */
  ghost function Layers(g: Graph, o: Order, remaining: set<string>): seq<Package>
    requires Keyed(g) && DepsPresent(g) && IsCollation(o.locale)
    requires remaining <= g.Keys
    decreases remaining
  {
    if remaining == {} then [] else
      var b := NextBlock(g, o, remaining);
      Ranked(g, o, b) + Layers(g, o, remaining - b)
  }

  // ---------------------------------------------------------------- what the order promises

  ghost predicate PlacedBefore(s: seq<Package>, i: nat, d: string) {
    exists j :: 0 <= j < i && j < |s| && s[j].short == d
  }

  ghost predicate Sortable(g: Graph, o: Order, remaining: set<string>) {
    Keyed(g) && DepsPresent(g) && IsCollation(o.locale) && remaining <= g.Keys
  }

  /** The order lists each remaining package exactly once. */
  lemma {:induction false} LayersPermutation(g: Graph, o: Order, remaining: set<string>)
    requires Sortable(g, o, remaining)
    ensures var s := Layers(g, o, remaining);
            && DistinctNames(s)
            && (forall p :: p in s <==> p.short in remaining && g[p.short] == p)
            && |s| == |remaining|
    decreases remaining
  {
    hide DepsPresent, IsCollation, NextBlock, Ranked, Ascending;
    if remaining != {} {
      var b := NextBlock(g, o, remaining);
      LayersPermutation(g, o, remaining - b);
      var front, rest := Ranked(g, o, b), Layers(g, o, remaining - b);
      RankedSize(g, o, b);
      assert remaining == b + (remaining - b);
      forall i, j | 0 <= i < |front| && 0 <= j < |rest|
        ensures front[i].short != rest[j].short
      {
        assert front[i] in front && rest[j] in rest;
      }
    }
  }

  lemma AscendingDistinct(o: Order, s: seq<Package>)
    requires IsCollation(o.locale) && Ascending(o, s)
    ensures forall i, j :: 0 <= i < j < |s| ==> s[i] != s[j]
  {
  }

  lemma {:induction false} RankedSize(g: Graph, o: Order, names: set<string>)
    requires Keyed(g) && IsCollation(o.locale) && names <= g.Keys
    ensures |Ranked(g, o, names)| == |names| && DistinctNames(Ranked(g, o, names))
    decreases names
  {
    var s := Ranked(g, o, names);
    AscendingDistinct(o, s);
    forall i, j | 0 <= i < j < |s|
      ensures s[i].short != s[j].short
    {
      assert s[i] in s && s[j] in s && s[i] != s[j];
    }
    if names != {} {
      LeastExists(o, g, names);
      var m :| Least(o, g, names, m) && s == [g[m]] + Ranked(g, o, names - {m});
      RankedSize(g, o, names - {m});
    }
  }

  lemma RestrictReach(g: Graph, names: set<string>, u: string, v: string)
    requires Reach(Restrict(g, names), u, v)
    ensures Reach(g, u, v)
  {
    var h := Restrict(g, names);
    var p :| Walk(h, p) && p[0] == u && p[|p| - 1] == v;
    forall i | 0 <= i < |p| - 1
      ensures Hop(g, p, i)
    {
      assert Hop(h, p, i);
    }
    assert Walk(g, p);
  }

  /** A package of the next block depends on what is placed already or on its own component. */
  lemma BlockDeps(g: Graph, o: Order, remaining: set<string>, u: string, d: string)
    requires Sortable(g, o, remaining) && remaining != {}
    requires u in NextBlock(g, o, remaining) && d in g[u].deps
    ensures d !in remaining || Mutual(g, u, d)
  {
    if Ready(g, remaining) == {} && d in remaining {
      var h := Restrict(g, remaining);
      var c := NextBlock(g, o, remaining);
      assert SinkCycle(h, c);
      assert Edge(h, u, d);
      assert Mutual(h, u, d);
      RestrictReach(g, remaining, u, d);
      RestrictReach(g, remaining, d, u);
    }
  }

  /** Each dependency comes first, unless it lies in the same strongly connected component. */
  lemma {:induction false} LayersDepsFirst(g: Graph, o: Order, remaining: set<string>, i: nat, d: string)
    requires Sortable(g, o, remaining)
    requires i < |Layers(g, o, remaining)| && d in Layers(g, o, remaining)[i].deps
    ensures
      || d !in remaining
      || Mutual(g, Layers(g, o, remaining)[i].short, d)
      || PlacedBefore(Layers(g, o, remaining), i, d)
    decreases remaining
  {
    hide DepsPresent, IsCollation, Mutual, NextBlock, PlacedBefore, Ranked;
    var b := NextBlock(g, o, remaining);
    var front, rest := Ranked(g, o, b), Layers(g, o, remaining - b);
    var s := Layers(g, o, remaining);
    assert s == front + rest;
    if i < |front| {
      assert s[i] in front;
      BlockDeps(g, o, remaining, s[i].short, d);
    } else {
      LayersDepsFirst(g, o, remaining - b, i - |front|, d);
      if d in b {
        assert g[d] in front;
        PlacedInFront(front, rest, i, g[d]);
      } else if PlacedBefore(rest, i - |front|, d) {
        PlacedInRest(front, rest, i, d);
      }
    }
  }

  lemma PlacedInFront(front: seq<Package>, rest: seq<Package>, i: nat, p: Package)
    requires |front| <= i && p in front
    ensures PlacedBefore(front + rest, i, p.short)
  {
    var j :| 0 <= j < |front| && front[j] == p;
    assert (front + rest)[j] == p;
  }

  lemma PlacedInRest(front: seq<Package>, rest: seq<Package>, i: nat, d: string)
    requires |front| <= i && PlacedBefore(rest, i - |front|, d)
    ensures PlacedBefore(front + rest, i, d)
  {
    var j :| 0 <= j < i - |front| && j < |rest| && rest[j].short == d;
    assert (front + rest)[|front| + j].short == d;
  }

  // ---------------------------------------------------------------- cycles stay together

  lemma CycleHasDep(g: Graph, c: set<string>, u: string)
    requires Keyed(g) && IsScc(g, c) && HasCycle(g, c) && u in c
    ensures exists w :: w in c && Edge(g, u, w)
  {
    var x, y :| x in c && y in c && Edge(g, x, y);
    if x != u {
      FirstEdgeInside(g, c, u, x);
    }
  }

  lemma ReachWithinScc(g: Graph, c: set<string>, remaining: set<string>, u: string, v: string)
    requires IsScc(g, c) && c <= remaining && u in c && v in c
    ensures Reach(Restrict(g, remaining), u, v)
  {
    var h := Restrict(g, remaining);
    assert Mutual(g, u, v);
    var p :| Walk(g, p) && p[0] == u && p[|p| - 1] == v;
    forall i | 0 <= i < |p|
      ensures p[i] in c
    {
      WalkPoints(g, p, i);
      ReachTrans(g, p[i], v, u);
      ReachInside(g, u, p[i]);
      assert Mutual(g, u, p[i]);
    }
    forall i | 0 <= i < |p| - 1
      ensures Hop(h, p, i)
    {
      assert Hop(g, p, i);
    }
    assert Walk(h, p);
  }

  /** A block that meets a wholly remaining cyclic component is that component. */
  lemma BlockIsScc(g: Graph, o: Order, remaining: set<string>, c: set<string>, u: string)
    requires Sortable(g, o, remaining) && remaining != {}
    requires IsScc(g, c) && HasCycle(g, c) && c <= remaining
    requires u in c && u in NextBlock(g, o, remaining)
    ensures NextBlock(g, o, remaining) == c
  {
    var b, h := NextBlock(g, o, remaining), Restrict(g, remaining);
    CycleHasDep(g, c, u);
    assert Ready(g, remaining) == {} by {
      var w :| w in c && Edge(g, u, w);
      assert u !in Ready(g, remaining);
    }
    assert IsScc(h, b);
    forall v
      ensures v in b <==> v in c
    {
      if v in b {
        assert Mutual(h, u, v);
        RestrictReach(g, remaining, u, v);
        RestrictReach(g, remaining, v, u);
        assert Mutual(g, u, v);
      }
      if v in c {
        ReachWithinScc(g, c, remaining, u, v);
        ReachWithinScc(g, c, remaining, v, u);
        assert v in h && Mutual(h, u, v);
      }
    }
  }

  ghost predicate Contiguous(s: seq<Package>, c: set<string>, i: nat) {
    i + |c| <= |s| && Names(s[i..i + |c|]) == c
  }

  /** Every component with a cycle is emitted as one contiguous block in `comparePackages` order. */
  lemma {:induction false} LayersKeepCycles(g: Graph, o: Order, remaining: set<string>, c: set<string>) returns (i: nat)
    requires Sortable(g, o, remaining)
    requires IsScc(g, c) && HasCycle(g, c) && c <= remaining
    ensures Contiguous(Layers(g, o, remaining), c, i)
    ensures Ascending(o, Layers(g, o, remaining)[i..i + |c|])
    decreases remaining
  {
    hide IsScc, HasCycle, NextBlock, Ranked, Names, Keyed, DepsPresent, IsCollation, Ascending, Contiguous;
    NonEmptyScc(g, c);
    var b := NextBlock(g, o, remaining);
    var front, rest := Ranked(g, o, b), Layers(g, o, remaining - b);
    var s := Layers(g, o, remaining);
    assert s == front + rest;
    RankedSize(g, o, b);
    if c !! b {
      var k := LayersKeepCycles(g, o, remaining - b, c);
      i := |front| + k;
      ContiguousLater(front, rest, c, k);
    } else {
      var u :| u in c && u in b;
      BlockIsScc(g, o, remaining, c, u);
      i := 0;
      RankedNames(g, o, b);
      ContiguousFront(front, rest, c);
    }
  }

  lemma ContiguousLater(front: seq<Package>, rest: seq<Package>, c: set<string>, k: nat)
    requires Contiguous(rest, c, k)
    ensures Contiguous(front + rest, c, |front| + k)
    ensures (front + rest)[|front| + k..|front| + k + |c|] == rest[k..k + |c|]
  {
    assert (front + rest)[|front| + k..|front| + k + |c|] == rest[k..k + |c|];
  }

  lemma ContiguousFront(front: seq<Package>, rest: seq<Package>, c: set<string>)
    requires |front| == |c| && Names(front) == c
    ensures Contiguous(front + rest, c, 0) && (front + rest)[0..|c|] == front
  {
    assert (front + rest)[0..|c|] == front;
  }

  lemma NonEmptyScc(g: Graph, c: set<string>)
    requires IsScc(g, c)
    ensures c != {}
  {
  }

  lemma RankedNames(g: Graph, o: Order, names: set<string>)
    requires Keyed(g) && IsCollation(o.locale) && names <= g.Keys
    ensures Names(Ranked(g, o, names)) == names
  {
  }

  // ---------------------------------------------------------------- topoSort

  /** `new Map(packages.map(pkg => [pkg.short, pkg]))`: the last package of a name wins. */
  function ByName(packages: seq<Package>): (g: Graph)
    ensures Keyed(g)
    ensures forall k :: k in g ==> g[k] in packages
    ensures forall p :: p in packages ==> p.short in g
  {
    if packages == [] then map[] else
      var last := packages[|packages| - 1];
      ByName(packages[..|packages| - 1])[last.short := last]
  }

  lemma {:induction false} ByNameHolds(packages: seq<Package>, p: Package)
    requires DistinctNames(packages) && p in packages
    ensures ByName(packages)[p.short] == p
  {
    var init, last := packages[..|packages| - 1], packages[|packages| - 1];
    if p != last {
      assert packages == init + [last];
      assert p in init;
      var i :| 0 <= i < |init| && init[i] == p;
      assert packages[i].short != last.short;
      ByNameHolds(init, p);
    }
  }

  /** Two listings of the same packages build the same map. */
  lemma ByNameSame(a: seq<Package>, b: seq<Package>)
    requires DistinctNames(a) && DistinctNames(b)
    requires forall p :: p in a <==> p in b
    ensures ByName(a) == ByName(b)
  {
  }

  datatype Result = Ordered(packages: seq<Package>) | MissingPeer(name: string, dependency: string) | CouldNotOrder

  ghost predicate MissesPeer(packages: seq<Package>, g: Graph) {
    exists p, d :: p in packages && d in p.deps && d !in g
  }

  /** The first missing peer in listing order: the `j`-th dependency of the `i`-th package. */
  ghost predicate FirstMiss(packages: seq<Package>, g: Graph, i: nat, j: nat) {
    && i < |packages| && j < |packages[i].deps| && packages[i].deps[j] !in g
    && (forall p, d :: p in packages[..i] && d in p.deps ==> d in g)
    && (forall d :: d in packages[i].deps[..j] ==> d in g)
  }

  ghost predicate NamesFirstMiss(packages: seq<Package>, g: Graph, name: string, dependency: string) {
    exists i: nat, j: nat ::
      FirstMiss(packages, g, i, j) && packages[i].name == name && packages[i].deps[j] == dependency
  }

  lemma ByNameCloses(packages: seq<Package>)
    requires !MissesPeer(packages, ByName(packages))
    ensures DepsPresent(ByName(packages))
  {
  }

  /** Ascending listings of one block agree. */
  lemma IsRanked(g: Graph, o: Order, names: set<string>, s: seq<Package>)
    requires Keyed(g) && IsCollation(o.locale) && names <= g.Keys
    requires Ascending(o, s) && forall p :: p in s <==> p.short in names && g[p.short] == p
    ensures s == Ranked(g, o, names)
  {
    AscendingUnique(o, s, Ranked(g, o, names));
  }

  /** `[...remaining.values()]`, in whatever order the `Map` yields them. */
  method MapValues(m: Graph) returns (values: seq<Package>)
    requires Keyed(m)
    ensures DistinctNames(values)
    ensures forall p :: p in values <==> p.short in m && m[p.short] == p
  {
    values := [];
    var todo := m.Keys;
    while todo != {}
      invariant todo <= m.Keys && DistinctNames(values)
      invariant forall p :: p in values <==> p.short in m && m[p.short] == p && p.short !in todo
      decreases todo
    {
      var k :| k in todo;
      todo := todo - {k};
      assert forall i :: 0 <= i < |values| ==> values[i] in values;
      values := values + [m[k]];
    }
  }

  predicate AllPlaced(deps: seq<string>, placed: set<string>) {
    forall d :: d in deps ==> d in placed
  }

  function FilterReady(values: seq<Package>, placed: set<string>): seq<Package> {
    if values == [] then [] else
      (if AllPlaced(values[0].deps, placed) then [values[0]] else []) + FilterReady(values[1..], placed)
  }

  lemma {:induction false} FilterReadyKeeps(values: seq<Package>, placed: set<string>)
    requires DistinctNames(values)
    ensures DistinctNames(FilterReady(values, placed))
    ensures forall p :: p in FilterReady(values, placed) <==> p in values && AllPlaced(p.deps, placed)
  {
    if values != [] {
      var rest := values[1..];
      FilterReadyKeeps(rest, placed);
      assert values == [values[0]] + rest;
      forall p | p in FilterReady(rest, placed)
        ensures p.short != values[0].short
      {
        var i :| 0 <= i < |rest| && rest[i] == p;
        assert values[i + 1].short != values[0].short;
      }
    }
  }

  /** One evaluation of `ready`. */
  method ReadyPackages(remaining: Graph, placed: set<string>, o: Order, ghost g: Graph) returns (ready: seq<Package>)
    requires Sortable(g, o, remaining.Keys) && remaining == Restrict(g, remaining.Keys)
    requires placed == g.Keys - remaining.Keys
    ensures ready == Ranked(g, o, Ready(g, remaining.Keys))
  {
    var values := MapValues(remaining);
    FilterReadyKeeps(values, placed);
    var waiting := FilterReady(values, placed);
    SortPackagesAscends(o, waiting);
    ready := SortPackages(o, waiting);
    ReadyListed(g, o, remaining, placed, values, ready);
  }

  lemma ReadyListed(g: Graph, o: Order, remaining: Graph, placed: set<string>, values: seq<Package>,
          ready: seq<Package>)
    requires Sortable(g, o, remaining.Keys) && remaining == Restrict(g, remaining.Keys)
    requires placed == g.Keys - remaining.Keys
    requires forall p :: p in values <==> p.short in remaining && remaining[p.short] == p
    requires Ascending(o, ready) && forall p :: p in ready <==> p in values && AllPlaced(p.deps, placed)
    ensures ready == Ranked(g, o, Ready(g, remaining.Keys))
  {
    forall p
      ensures p in ready <==> p.short in Ready(g, remaining.Keys) && g[p.short] == p
    {
      if p.short in remaining && remaining[p.short] == p {
        assert AllPlaced(p.deps, placed) <==> forall d :: d in g[p.short].deps ==> d !in remaining.Keys;
      }
    }
    IsRanked(g, o, Ready(g, remaining.Keys), ready);
  }

  /** Components are compared by their first package; `sinkCycles` returns no empty one. */
  function CompareFirsts(o: Order, a: seq<Package>, b: seq<Package>): int {
    if a == [] || b == [] then |a| - |b| else ComparePackages(o, a[0], b[0])
  }

  function SortComponents(o: Order, cycles: seq<seq<Package>>): seq<seq<Package>> {
    StableSort.Sort(seq(|cycles|, i requires 0 <= i < |cycles| => SortPackages(o, cycles[i])),
        (a, b) => CompareFirsts(o, a, b))
  }

  /** A component sorted by `comparePackages`: its first package is its least. */
  ghost predicate SortedComponent(o: Order, g: Graph, s: seq<Package>) {
    && s != []
    && Ascending(o, s)
    && (forall p :: p in s ==> p.short in g && g[p.short] == p)
    && SinkCycle(g, Names(s))
  }

  lemma SortsComponent(o: Order, g: Graph, c: seq<Package>)
    requires IsCollation(o.locale) && IsComponent(g, c) && SinkCycle(g, Names(c))
    ensures SortedComponent(o, g, SortPackages(o, c)) && Names(SortPackages(o, c)) == Names(c)
  {
    SortPackagesAscends(o, c);
    assert Names(SortPackages(o, c)) == Names(c);
  }

  lemma SortsFirsts(o: Order, comps: seq<seq<Package>>)
    requires IsCollation(o.locale)
    requires forall c :: c in comps ==> c != []
    ensures var s := StableSort.Sort(comps, (a, b) => CompareFirsts(o, a, b));
            && (forall c :: c in s <==> c in comps)
            && (forall c :: c in comps ==> s != [] && s[0] != [] && ComparePackages(o, s[0][0], c[0]) <= 0)
  {
    var cmp := (a, b) => CompareFirsts(o, a, b);
    assert StableSort.Preorder(comps, cmp) by {
      forall a, b | a in comps && b in comps
        ensures cmp(a, b) <= 0 || cmp(b, a) <= 0
      {
        CompareTotal(o, a[0], b[0]);
      }
      forall a, b, c | a in comps && b in comps && c in comps && cmp(a, b) <= 0 && cmp(b, c) <= 0
        ensures cmp(a, c) <= 0
      {
        CompareWeaklyTransitive(o, a[0], b[0], c[0]);
      }
    }
    var s := StableSort.Sort(comps, cmp);
    StableSort.SortOrders(comps, cmp);
    StableSort.SortMembers(comps, cmp);
    forall c | c in comps
      ensures s != [] && s[0] != [] && ComparePackages(o, s[0][0], c[0]) <= 0
    {
      var k :| 0 <= k < |s| && s[k] == c;
      assert s[0] in s;
      CompareTotal(o, c[0], c[0]);
      assert k > 0 ==> cmp(s[0], s[k]) <= 0;
    }
  }

  /** The first of the sorted components starts with the least package of any sink cycle. */
  lemma LeastComponent(o: Order, g: Graph, first: seq<Package>, own: seq<Package>, m: string)
    requires IsCollation(o.locale) && Keyed(g)
    requires SortedComponent(o, g, first) && SortedComponent(o, g, own)
    requires m in Names(own) && Least(o, g, CycleMembers(g), m)
    requires ComparePackages(o, first[0], own[0]) <= 0
    ensures Names(first) == SccOf(g, m)
  {
    var p :| p in own && p.short == m;
    var k :| 0 <= k < |own| && own[k] == p;
    CompareTotal(o, own[0], p);
    assert k > 0 ==> Before(o, own[0], own[k]);
    CompareWeaklyTransitive(o, first[0], own[0], p);
    var f := first[0];
    assert f in first && f.short in Names(first);
    assert InSinkCycle(g, f.short);
    assert f.short in CycleMembers(g);
    if f.short != m {
      CompareTotal(o, p, f);
    }
    SccOfMember(g, Names(first), m);
  }

  lemma SortedComponents(g: Graph, o: Order, cycles: seq<seq<Package>>)
    requires IsCollation(o.locale) && ExactlySinkCycles(g, cycles)
    ensures forall c :: c in SortComponents(o, cycles) ==> SortedComponent(o, g, c)
    ensures forall c :: SinkCycle(g, c) ==> exists s :: s in SortComponents(o, cycles) && Names(s) == c
    ensures forall c :: c in SortComponents(o, cycles) ==>
      && SortComponents(o, cycles) != [] && SortComponents(o, cycles)[0] != [] && c != []
      && ComparePackages(o, SortComponents(o, cycles)[0][0], c[0]) <= 0
  {
    hide SinkCycle, IsComponent, Ascending, ComparePackages, CompareFirsts, IsCollation, Names, SortPackages;
    var comps := seq(|cycles|, i requires 0 <= i < |cycles| => SortPackages(o, cycles[i]));
    forall i | 0 <= i < |cycles|
      ensures SortedComponent(o, g, comps[i]) && Names(comps[i]) == Names(cycles[i])
    {
      SortsComponent(o, g, cycles[i]);
    }
    forall c | c in comps
      ensures SortedComponent(o, g, c)
    {
      var i :| 0 <= i < |comps| && comps[i] == c;
    }
    SortsFirsts(o, comps);
    forall c | SinkCycle(g, c)
      ensures exists s :: s in SortComponents(o, cycles) && Names(s) == c
    {
      var k :| 0 <= k < |cycles| && Names(cycles[k]) == c;
      assert comps[k] in comps;
    }
  }

  /** The stuck branch: `sinkCycles(remaining).map(sort).sort(byFirst)[0]`. */
  lemma FirstComponent(g: Graph, o: Order, remaining: set<string>, cycles: seq<seq<Package>>)
    requires Stuck(g, o, remaining) && ExactlySinkCycles(Restrict(g, remaining), cycles)
    ensures SortComponents(o, cycles) != []
    ensures SortComponents(o, cycles)[0] == Ranked(g, o, NextBlock(g, o, remaining))
  {
    hide IsCollation, ExactlySinkCycles, CycleMembers;
    var h := Restrict(g, remaining);
    var c := FirstSinkCycle(g, o, remaining);
    var sorted := SortComponents(o, cycles);
    SortedComponents(h, o, cycles);
    var own :| own in sorted && Names(own) == c;
    var m :| m in c && Least(o, h, CycleMembers(h), m);
    assert sorted[0] in sorted;
    LeastComponent(o, h, sorted[0], own, m);
    SccOfMember(h, c, m);
    RankedComponent(g, o, remaining, c, sorted[0]);
  }

  lemma RankedComponent(g: Graph, o: Order, remaining: set<string>, c: set<string>, s: seq<Package>)
    requires Sortable(g, o, remaining) && c <= remaining
    requires SortedComponent(o, Restrict(g, remaining), s) && Names(s) == c
    ensures s == Ranked(g, o, c)
  {
    forall p
      ensures p in s <==> p.short in c && g[p.short] == p
    {
      if p.short in c {
        var q :| q in s && q.short == p.short;
      }
    }
    IsRanked(g, o, c, s);
  }

  // ---------------------------------------------------------------- the loop

  /** The packages of a block are placed one after the other, and leave those remaining. */
  method PlaceBlock(block: seq<Package>, remaining0: Graph, placed0: set<string>, out0: seq<Package>)
    returns (remaining: Graph, placed: set<string>, out: seq<Package>)
    ensures remaining == map k | k in remaining0 && k !in Names(block) :: remaining0[k]
    ensures placed == placed0 + Names(block)
    ensures out == out0 + block
  {
    remaining, placed, out := remaining0, placed0, out0;
    for i := 0 to |block|
      invariant remaining == map k | k in remaining0 && k !in Names(block[..i]) :: remaining0[k]
      invariant placed == placed0 + Names(block[..i])
      invariant out == out0 + block[..i]
    {
      assert block[..i + 1] == block[..i] + [block[i]];
      assert Names(block[..i + 1]) == Names(block[..i]) + {block[i].short};
      out := out + [block[i]];
      placed := placed + {block[i].short};
      remaining := remaining - {block[i].short};
    }
    assert block[..|block|] == block;
  }

  lemma RankedEmpty(g: Graph, o: Order, names: set<string>)
    requires Keyed(g) && IsCollation(o.locale) && names <= g.Keys && Ranked(g, o, names) == []
    ensures names == {}
  {
  }

  lemma StuckRound(g: Graph, o: Order, remaining: Graph, cycles: seq<seq<Package>>)
    requires Sortable(g, o, remaining.Keys) && remaining == Restrict(g, remaining.Keys) && remaining.Keys != {}
    requires Ranked(g, o, Ready(g, remaining.Keys)) == [] && ExactlySinkCycles(remaining, cycles)
    ensures SortComponents(o, cycles) != []
    ensures SortComponents(o, cycles)[0] == Ranked(g, o, NextBlock(g, o, remaining.Keys))
  {
    RankedEmpty(g, o, Ready(g, remaining.Keys));
    FirstComponent(g, o, remaining.Keys, cycles);
  }

  /** Placing the next block, whichever branch found it. */
  lemma RoundPlaces(g: Graph, o: Order, remaining: Graph, block: seq<Package>)
    requires Sortable(g, o, remaining.Keys) && remaining == Restrict(g, remaining.Keys) && remaining.Keys != {}
    requires block == Ranked(g, o, NextBlock(g, o, remaining.Keys))
    ensures Names(block) <= remaining.Keys && Names(block) != {}
    ensures Layers(g, o, remaining.Keys) == block + Layers(g, o, remaining.Keys - Names(block))
  {
    RankedNames(g, o, NextBlock(g, o, remaining.Keys));
  }

  lemma ReadyRound(g: Graph, o: Order, remaining: Graph, ready: seq<Package>)
    requires Sortable(g, o, remaining.Keys) && remaining.Keys != {}
    requires ready == Ranked(g, o, Ready(g, remaining.Keys)) && ready != []
    ensures ready == Ranked(g, o, NextBlock(g, o, remaining.Keys))
  {
  }

  /** The first loop of `topoSort`: the first dependency that names no package. */
  method FirstMissingPeer(packages: seq<Package>, byName: Graph) returns (found: bool, name: string, dependency: string)
    ensures found <==> MissesPeer(packages, byName)
    ensures found ==> NamesFirstMiss(packages, byName, name, dependency)
  {
    found, name, dependency := false, "", "";
    for i := 0 to |packages|
      invariant forall p, d :: p in packages[..i] && d in p.deps ==> d in byName
    {
      var pkg := packages[i];
      for j := 0 to |pkg.deps|
        invariant forall d :: d in pkg.deps[..j] ==> d in byName
      {
        if pkg.deps[j] !in byName {
          assert FirstMiss(packages, byName, i, j);
          return true, pkg.name, pkg.deps[j];
        }
      }
    }
  }

  /** The block of one round: the ready packages, or a cycle where there are none. */
  method NextPackages(remaining: Graph, placed: set<string>, o: Order, ghost g: Graph) returns (ready: seq<Package>)
    requires Sortable(g, o, remaining.Keys) && remaining == Restrict(g, remaining.Keys) && remaining.Keys != {}
    requires placed == g.Keys - remaining.Keys
    ensures ready == Ranked(g, o, NextBlock(g, o, remaining.Keys))
  {
    hide IsCollation, Ready, NextBlock, Ranked, ExactlySinkCycles, DepsPresent;
    ready := ReadyPackages(remaining, placed, o, g);
    if ready == [] {
      var cycles := FindSinkCycles(remaining);
      var sorted := SortComponents(o, cycles);
      StuckRound(g, o, remaining, cycles);
      if sorted == [] {
        assert false;  // 'could not order package dependency graph'
      }
      ready := sorted[0];
    } else {
      ReadyRound(g, o, remaining, ready);
    }
  }

  method TopoSort(packages: seq<Package>, o: Order) returns (r: Result)
    requires IsCollation(o.locale)
    ensures r.Ordered? <==> !MissesPeer(packages, ByName(packages))
    ensures r.MissingPeer? ==> NamesFirstMiss(packages, ByName(packages), r.name, r.dependency)
    ensures r != CouldNotOrder
    ensures r.Ordered? ==> r.packages == Ordering(packages, o)
  {
    hide IsCollation, Ready, NextBlock, Ranked, Layers, ExactlySinkCycles;
    hide MissesPeer, DepsPresent, ByName, Names, NamesFirstMiss;
    var byName := ByName(packages);
    var found, name, dependency := FirstMissingPeer(packages, byName);
    if found {
      return MissingPeer(name, dependency);
    }
    ByNameCloses(packages);
    var remaining, placed, out := byName, {}, [];
    while remaining.Keys != {}
      invariant remaining.Keys <= byName.Keys && remaining == Restrict(byName, remaining.Keys)
      invariant placed == byName.Keys - remaining.Keys
      invariant out + Layers(byName, o, remaining.Keys) == Layers(byName, o, byName.Keys)
      decreases remaining.Keys
    {
      var ready := NextPackages(remaining, placed, o, byName);
      RoundPlaces(byName, o, remaining, ready);
      ghost var names, out0 := remaining.Keys, out;
      remaining, placed, out := PlaceBlock(ready, remaining, placed, out);
      assert remaining.Keys == names - Names(ready);
      assert out0 + (ready + Layers(byName, o, remaining.Keys)) == out + Layers(byName, o, remaining.Keys);
    }
    LayersDone(byName, o);
    r := Ordered(out);
  }

  lemma LayersDone(g: Graph, o: Order)
    requires Sortable(g, o, {})
    ensures Layers(g, o, {}) == []
  {
  }

  // ---------------------------------------------------------------- the promises, for a listing

  /** What `topoSort` returns for a listing without missing peers. */
  ghost function Ordering(packages: seq<Package>, o: Order): seq<Package>
    requires IsCollation(o.locale) && !MissesPeer(packages, ByName(packages))
  {
    ByNameCloses(packages);
    Layers(ByName(packages), o, ByName(packages).Keys)
  }

  /** The result rearranges the listing: every package once, none added. */
  lemma OrderingPermutes(packages: seq<Package>, o: Order)
    requires IsCollation(o.locale) && DistinctNames(packages) && !MissesPeer(packages, ByName(packages))
    ensures DistinctNames(Ordering(packages, o))
    ensures forall p :: p in Ordering(packages, o) <==> p in packages
    ensures |Ordering(packages, o)| == |packages|
  {
    var g := ByName(packages);
    ByNameCloses(packages);
    LayersPermutation(g, o, g.Keys);
    forall p
      ensures p in packages <==> p.short in g && g[p.short] == p
    {
      if p in packages {
        ByNameHolds(packages, p);
      }
    }
    DistinctCount(packages, Ordering(packages, o));
  }

  lemma {:induction false} DistinctCount(s: seq<Package>, t: seq<Package>)
    requires DistinctNames(s) && DistinctNames(t) && forall p :: p in s <==> p in t
    ensures |s| == |t|
  {
    DistinctMultiset(s, t);
    assert |s| == |multiset(s)| && |t| == |multiset(t)|;
  }

  lemma DistinctMultiset(s: seq<Package>, t: seq<Package>)
    requires DistinctNames(s) && DistinctNames(t) && forall p :: p in s <==> p in t
    ensures multiset(s) == multiset(t)
  {
    forall p
      ensures multiset(s)[p] == multiset(t)[p]
    {
      assert p in multiset(s) <==> p in s;
      assert p in multiset(t) <==> p in t;
      if p in s {
        var x :| 0 <= x < |s| && s[x] == p;
        var y :| 0 <= y < |t| && t[y] == p;
        Counting.OccursOnce(s, x);
        Counting.OccursOnce(t, y);
      }
    }
  }

  /** Every dependency precedes its dependent, unless the two are mutually reachable. */
  lemma OrderingDepsFirst(packages: seq<Package>, o: Order, i: nat, d: string)
    requires IsCollation(o.locale) && !MissesPeer(packages, ByName(packages))
    requires i < |Ordering(packages, o)| && d in Ordering(packages, o)[i].deps
    ensures Mutual(ByName(packages), Ordering(packages, o)[i].short, d) || PlacedBefore(Ordering(packages, o), i, d)
  {
    var g := ByName(packages);
    ByNameCloses(packages);
    LayersDepsFirst(g, o, g.Keys, i, d);
    LayersPermutation(g, o, g.Keys);
    assert Ordering(packages, o)[i] in Ordering(packages, o);
  }

  /** The result depends on the set of packages, not on the order they are listed in. */
  lemma OrderingIgnoresListing(a: seq<Package>, b: seq<Package>, o: Order)
    requires IsCollation(o.locale) && DistinctNames(a) && DistinctNames(b)
    requires forall p :: p in a <==> p in b
    requires !MissesPeer(a, ByName(a))
    ensures !MissesPeer(b, ByName(b))
    ensures Ordering(a, o) == Ordering(b, o)
  {
    ByNameSame(a, b);
  }
}
