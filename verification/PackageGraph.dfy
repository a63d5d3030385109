/** The package dependency graph of `scripts/package-graph.ts`: edges, walks,
    reachability, strongly connected components and sink cycles. */
module PackageGraph {
  import Counting

  /** One harness package; `deps` are the short names of its in-repo peers. */
  datatype Package = Package(short: string, name: string, group: string, rel: string, deps: seq<string>)

  /** A JavaScript `Map` from short name to package. */
  type Graph = map<string, Package>

  predicate Keyed(g: Graph) {
    forall k :: k in g ==> g[k].short == k
  }

  predicate Edge(g: Graph, u: string, v: string) {
    u in g && v in g && v in g[u].deps
  }

  /** Every dependency of every package is itself a package of the graph. */
  predicate DepsPresent(g: Graph) {
    forall u, d :: u in g && d in g[u].deps ==> d in g
  }

  predicate Hop(g: Graph, p: seq<string>, i: nat)
    requires i + 1 < |p|
  {
    Edge(g, p[i], p[i + 1])
  }

  ghost predicate Walk(g: Graph, p: seq<string>) {
    && p != []
    && p[0] in g
    && forall i {:trigger Hop(g, p, i)} :: 0 <= i < |p| - 1 ==> Hop(g, p, i)
  }

  ghost predicate Reach(g: Graph, u: string, v: string) {
    exists p :: Walk(g, p) && p[0] == u && p[|p| - 1] == v
  }

  ghost predicate Mutual(g: Graph, u: string, v: string) {
    Reach(g, u, v) && Reach(g, v, u)
  }

  ghost predicate Closed(g: Graph, s: set<string>) {
    forall u, v :: u in s && Edge(g, u, v) ==> v in s
  }

  /** A strongly connected component: a full class of mutually reachable packages. */
  ghost predicate IsScc(g: Graph, c: set<string>) {
    && c != {}
    && c <= g.Keys
    && forall u, v :: u in c && v in g ==> (v in c <==> Mutual(g, u, v))
  }

  ghost predicate HasCycle(g: Graph, c: set<string>) {
    exists u, v :: u in c && v in c && Edge(g, u, v)
  }

  /** A component that contains a cycle and has no edge to a package outside itself. */
  ghost predicate SinkCycle(g: Graph, c: set<string>) {
    IsScc(g, c) && HasCycle(g, c) && Closed(g, c)
  }

  ghost function Names(s: seq<Package>): set<string> {
    set p <- s :: p.short
  }

  // ---------------------------------------------------------------- reachability

  lemma ReachRefl(g: Graph, u: string)
    requires u in g
    ensures Reach(g, u, u)
  {
    assert Walk(g, [u]);
  }

  lemma ReachStep(g: Graph, u: string, v: string, w: string)
    requires Reach(g, u, v) && Edge(g, v, w)
    ensures Reach(g, u, w)
  {
    var p :| Walk(g, p) && p[0] == u && p[|p| - 1] == v;
    var q := p + [w];
    forall i | 0 <= i < |q| - 1
      ensures Hop(g, q, i)
    {
      if i < |p| - 1 {
        assert Hop(g, p, i);
      }
    }
    assert Walk(g, q) && q[0] == u && q[|q| - 1] == w;
  }

  lemma ReachEdge(g: Graph, u: string, v: string)
    requires Edge(g, u, v)
    ensures Reach(g, u, v)
  {
    ReachRefl(g, u);
    ReachStep(g, u, u, v);
  }

  lemma ReachTrans(g: Graph, u: string, v: string, w: string)
    requires Reach(g, u, v) && Reach(g, v, w)
    ensures Reach(g, u, w)
  {
    var p :| Walk(g, p) && p[0] == u && p[|p| - 1] == v;
    var q :| Walk(g, q) && q[0] == v && q[|q| - 1] == w;
    var r := p + q[1..];
    forall i | 0 <= i < |r| - 1
      ensures Hop(g, r, i)
    {
      if i < |p| - 1 {
        assert Hop(g, p, i);
      } else {
        assert Hop(g, q, i - (|p| - 1));
        assert r[i] == q[i - (|p| - 1)] && r[i + 1] == q[i + 1 - (|p| - 1)];
      }
    }
    assert Walk(g, r) && r[0] == u && r[|r| - 1] == w;
  }

  lemma ReachStays(g: Graph, s: set<string>, u: string, v: string)
    requires Closed(g, s) && u in s && Reach(g, u, v)
    ensures v in s
  {
    var p :| Walk(g, p) && p[0] == u && p[|p| - 1] == v;
    var i := 0;
    while i < |p| - 1
      invariant 0 <= i < |p| && p[i] in s
    {
      assert Hop(g, p, i);
      i := i + 1;
    }
  }

  /** A walk's start reaches each point of it, and each point reaches its end. */
  lemma WalkPoints(g: Graph, p: seq<string>, i: nat)
    requires Walk(g, p) && i < |p|
    ensures Reach(g, p[0], p[i]) && Reach(g, p[i], p[|p| - 1])
  {
    var a, b := p[..i + 1], p[i..];
    forall k | 0 <= k < |a| - 1
      ensures Hop(g, a, k)
    {
      assert Hop(g, p, k);
    }
    forall k | 0 <= k < |b| - 1
      ensures Hop(g, b, k)
    {
      assert Hop(g, p, i + k);
    }
    assert i > 0 ==> Hop(g, p, i - 1);
    assert Walk(g, a) && a[0] == p[0] && a[|a| - 1] == p[i];
    assert Walk(g, b) && b[0] == p[i] && b[|b| - 1] == p[|p| - 1];
  }

  lemma ReachInside(g: Graph, u: string, v: string)
    requires Reach(g, u, v)
    ensures u in g && v in g
  {
    var p :| Walk(g, p) && p[0] == u && p[|p| - 1] == v;
    if |p| > 1 {
      assert Hop(g, p, |p| - 2);
    }
  }

  /** Two components that share a package are the same component. */
  lemma SccsDisjoint(g: Graph, c: set<string>, d: set<string>, u: string)
    requires IsScc(g, c) && IsScc(g, d) && u in c && u in d
    ensures c == d
  {
  }

  // ---------------------------------------------------------------- existence of a sink cycle

  ghost function ReachSet(g: Graph, u: string): set<string> {
    set v | v in g && Reach(g, u, v)
  }

  lemma LeastReachSet(g: Graph, s: set<string>) returns (u: string)
    requires s != {} && s <= g.Keys
    ensures u in s && forall v :: v in s ==> |ReachSet(g, u)| <= |ReachSet(g, v)|
  {
    u :| u in s;
    var todo := s - {u};
    while todo != {}
      invariant u in s && todo <= s
      invariant forall v :: v in s && v !in todo ==> |ReachSet(g, u)| <= |ReachSet(g, v)|
      decreases todo
    {
      var w :| w in todo;
      if |ReachSet(g, w)| < |ReachSet(g, u)| {
        u := w;
      }
      todo := todo - {w};
    }
  }

  lemma SubsetSize(a: set<string>, b: set<string>)
    requires a <= b && |b| <= |a|
    ensures a == b
  {
    if a != b {
      var x :| x in b && x !in a;
      assert a <= b - {x};
      Counting.SubsetSize(a, b - {x});
    }
  }

  /** From a package whose reach is smallest, everything it reaches reaches it back. */
  lemma LeastReachIsMutual(g: Graph, u: string, v: string)
    requires forall w :: w in g ==> |ReachSet(g, u)| <= |ReachSet(g, w)|
    requires Reach(g, u, v)
    ensures Reach(g, v, u)
  {
    ReachInside(g, u, v);
    ReachRefl(g, u);
    forall w | w in ReachSet(g, v)
      ensures w in ReachSet(g, u)
    {
      ReachTrans(g, u, v, w);
    }
    Counting.SubsetSize(ReachSet(g, v), ReachSet(g, u));
    assert u in ReachSet(g, v);
  }

  lemma LeastReachSetIsSink(g: Graph, u: string)
    requires u in g
    requires forall w :: w in g ==> |ReachSet(g, u)| <= |ReachSet(g, w)|
    ensures u in ReachSet(g, u) && IsScc(g, ReachSet(g, u)) && Closed(g, ReachSet(g, u))
  {
    var c := ReachSet(g, u);
    ReachRefl(g, u);
    forall x, v | x in c && v in g
      ensures v in c <==> Mutual(g, x, v)
    {
      LeastReachIsMutual(g, u, x);
      if v in c {
        LeastReachIsMutual(g, u, v);
        ReachTrans(g, x, u, v);
        ReachTrans(g, v, u, x);
      } else if Reach(g, x, v) {
        ReachTrans(g, u, x, v);
      }
    }
    forall x, v | x in c && Edge(g, x, v)
      ensures v in c
    {
      ReachStep(g, u, x, v);
    }
  }

  /** Some dependency of `u` is in the graph. */
  ghost predicate Waits(g: Graph, u: string) {
    exists v :: Edge(g, u, v)
  }

  /** When every package still waits for a package of the graph, the graph has a sink cycle. */
  lemma SinkCycleExists(g: Graph) returns (c: set<string>)
    requires g.Keys != {}
    requires forall u {:trigger Waits(g, u)} :: u in g ==> Waits(g, u)
    ensures SinkCycle(g, c)
  {
    var u := LeastReachSet(g, g.Keys);
    c := ReachSet(g, u);
    LeastReachSetIsSink(g, u);
    assert HasCycle(g, c) by {
      assert Waits(g, u);
      var v :| Edge(g, u, v);
      assert v in c;
    }
  }
}
