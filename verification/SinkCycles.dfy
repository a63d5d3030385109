/** `sinkCycles` of `scripts/package-graph.ts`: Tarjan's algorithm over mutable index,
    low-link and stack state, proved to emit exactly the strongly connected components,
    and its final filter, proved to keep exactly the sink cycles. */
module SinkCycles {
  import Counting
  import opened Numbers
  import opened PackageGraph

  /** The values of the traversal's local variables at one moment. */
  datatype Search = Search(
    next: nat,
    indices: map<string, nat>,
    lowLinks: map<string, nat>,
    stack: seq<Package>,
    stacked: set<string>,
    components: seq<seq<Package>>)

  // ---------------------------------------------------------------- invariant

  ghost predicate Shape(g: Graph, s: Search) {
    && Keyed(g)
    && s.indices.Keys <= g.Keys
    && s.lowLinks.Keys == s.indices.Keys
    && (forall u :: u in s.indices ==> s.indices[u] < s.next)
    && (forall p :: p in s.stack ==> p.short in s.indices && g[p.short] == p)
    && (forall i, j :: 0 <= i < j < |s.stack| ==> s.indices[s.stack[i].short] < s.indices[s.stack[j].short])
    && s.stacked == Names(s.stack)
  }

  /** Visited and no longer on the stack: its component has been emitted. */
  predicate Settled(s: Search, u: string) {
    u in s.indices && u !in s.stacked
  }

  ghost predicate SettledClosed(g: Graph, s: Search) {
    forall u, v :: Settled(s, u) && Edge(g, u, v) ==> Settled(s, v)
  }

  /** `gray` holds the packages whose call to `visit` is still active. */
  ghost predicate FinishedSeesVisited(g: Graph, s: Search, gray: set<string>) {
    forall u, v :: u in s.indices && u !in gray && Edge(g, u, v) ==> v in s.indices
  }

  ghost predicate Ascends(g: Graph, s: Search, gray: set<string>)
    requires s.stacked <= s.indices.Keys && gray <= s.stacked
  {
    forall y {:trigger ReachesActive(g, s, gray, y)} :: y in s.stacked ==> ReachesActive(g, s, gray, y)
  }

  ghost predicate ReachesActive(g: Graph, s: Search, gray: set<string>, y: string)
    requires y in s.indices && gray <= s.indices.Keys
  {
    exists x :: x in gray && s.indices[x] <= s.indices[y] && Reach(g, y, x)
  }

  ghost predicate Descends(g: Graph, s: Search, gray: set<string>)
    requires s.stacked <= s.indices.Keys && gray <= s.stacked
  {
    forall x, y :: x in gray && y in s.stacked && s.indices[x] <= s.indices[y] ==> Reach(g, x, y)
  }

  ghost predicate IsComponent(g: Graph, c: seq<Package>) {
    && (forall p :: p in c ==> p.short in g && g[p.short] == p)
    && (forall i, j :: 0 <= i < j < |c| ==> c[i].short != c[j].short)
    && IsScc(g, Names(c))
  }

  ghost predicate Emitted(cs: seq<seq<Package>>, u: string) {
    exists k :: 0 <= k < |cs| && u in Names(cs[k])
  }

  ghost predicate ComponentsExact(g: Graph, s: Search) {
    && (forall k :: 0 <= k < |s.components| ==> IsComponent(g, s.components[k]))
    && (forall i, j :: 0 <= i < j < |s.components| ==> Names(s.components[i]) !! Names(s.components[j]))
    && (forall u :: Settled(s, u) <==> Emitted(s.components, u))
  }

  ghost predicate Inv(g: Graph, s: Search, gray: set<string>) {
    && Shape(g, s)
    && s.stacked <= s.indices.Keys
    && gray <= s.stacked
    && SettledClosed(g, s)
    && FinishedSeesVisited(g, s, gray)
    && Ascends(g, s, gray)
    && Descends(g, s, gray)
    && ComponentsExact(g, s)
  }

  /** What a later state keeps of an earlier one. */
  ghost predicate Extends(before: Search, after: Search) {
    && before.stack <= after.stack
    && before.next <= after.next
    && (forall u :: u in before.indices ==> u in after.indices && after.indices[u] == before.indices[u])
    && (forall u :: u in after.indices && u !in before.indices ==> before.next <= after.indices[u])
    && (forall i :: |before.stack| <= i < |after.stack| ==> after.stack[i].short !in before.indices)
  }

  ghost predicate KeepsLow(before: Search, after: Search) {
    forall u :: u in before.lowLinks ==> u in after.lowLinks && after.lowLinks[u] == before.lowLinks[u]
  }

  /** No edge leaves the part of `after`'s stack above `before`'s for a package of `before`'s
      stack that lies lower than `low`. */
  ghost predicate LowBounds(g: Graph, before: Search, after: Search, low: int)
  {
    forall i, w ::
      (|before.stack| <= i < |after.stack| && w in before.stacked && w in before.indices
       && Edge(g, after.stack[i].short, w)) ==>
      low <= before.indices[w]
  }

  /** The contract of one call `visit(v)`. */
  ghost predicate Visited(g: Graph, before: Search, after: Search, gray: set<string>, v: string) {
    && Inv(g, after, gray)
    && Extends(before, after)
    && KeepsLow(before, after)
    && v in after.indices
    && v in after.lowLinks
    && LowBounds(g, before, after, after.lowLinks[v])
    && (if v in after.stacked
        then LowWitness(g, before, v, after.lowLinks[v])
        else after.stack == before.stack && after.lowLinks[v] == after.indices[v])
  }

  ghost predicate LowWitness(g: Graph, s: Search, v: string, low: int) {
    exists y :: y in s.stacked && y in s.indices && s.indices[y] == low && Reach(g, v, y)
  }

  // ---------------------------------------------------------------- steps

  function Push(s: Search, pkg: Package): Search {
    Search(s.next + 1, s.indices[pkg.short := s.next], s.lowLinks[pkg.short := s.next],
           s.stack + [pkg], s.stacked + {pkg.short}, s.components)
  }

  lemma PushShape(g: Graph, s: Search, pkg: Package)
    requires Shape(g, s) && s.stacked <= s.indices.Keys
    requires pkg.short in g && g[pkg.short] == pkg && pkg.short !in s.indices
    ensures Shape(g, Push(s, pkg)) && Push(s, pkg).stacked <= Push(s, pkg).indices.Keys
  {
    var t := Push(s, pkg);
    forall u
      ensures u in t.stacked <==> u in Names(t.stack)
    {
      if u in t.stacked && u != pkg.short {
        var p :| p in s.stack && p.short == u;
        assert p in t.stack;
      }
      assert pkg in t.stack;
    }
  }

  lemma PushAscends(g: Graph, s: Search, gray: set<string>, pkg: Package)
    requires s.stacked <= s.indices.Keys && gray <= s.stacked && Ascends(g, s, gray)
    requires pkg.short in g && pkg.short !in s.indices
    ensures Ascends(g, Push(s, pkg), gray + {pkg.short})
  {
    var t := Push(s, pkg);
    var v := pkg.short;
    ReachRefl(g, v);
    forall y | y in t.stacked
      ensures ReachesActive(g, t, gray + {v}, y)
    {
      if y == v {
        assert v in gray + {v} && t.indices[v] <= t.indices[v];
      } else {
        assert ReachesActive(g, s, gray, y);
        var x :| x in gray && s.indices[x] <= s.indices[y] && Reach(g, y, x);
        assert x in gray + {v} && t.indices[x] <= t.indices[y];
      }
    }
  }

  lemma PushDescends(g: Graph, s: Search, gray: set<string>, pkg: Package)
    requires s.stacked <= s.indices.Keys && gray <= s.stacked && Descends(g, s, gray)
    requires forall u :: u in s.indices ==> s.indices[u] < s.next
    requires pkg.short in g && pkg.short !in s.indices
    requires forall x :: x in gray ==> Reach(g, x, pkg.short)
    ensures Descends(g, Push(s, pkg), gray + {pkg.short})
  {
    var t := Push(s, pkg);
    var v := pkg.short;
    ReachRefl(g, v);
    forall x, y | x in gray + {v} && y in t.stacked && t.indices[x] <= t.indices[y]
      ensures Reach(g, x, y)
    {
    }
  }

  lemma PushKeeps(g: Graph, s: Search, gray: set<string>, pkg: Package)
    requires Inv(g, s, gray)
    requires pkg.short in g && g[pkg.short] == pkg && pkg.short !in s.indices
    requires forall x :: x in gray ==> Reach(g, x, pkg.short)
    ensures Inv(g, Push(s, pkg), gray + {pkg.short})
  {
    var t := Push(s, pkg);
    PushShape(g, s, pkg);
    PushAscends(g, s, gray, pkg);
    PushDescends(g, s, gray, pkg);
    PushSettles(g, s, gray, pkg);
  }

  lemma PushSettles(g: Graph, s: Search, gray: set<string>, pkg: Package)
    requires s.stacked <= s.indices.Keys && pkg.short !in s.indices
    requires SettledClosed(g, s) && ComponentsExact(g, s) && FinishedSeesVisited(g, s, gray)
    ensures SettledClosed(g, Push(s, pkg)) && ComponentsExact(g, Push(s, pkg))
    ensures FinishedSeesVisited(g, Push(s, pkg), gray + {pkg.short})
  {
  }

  /** Between two dependencies of the active call `visit(pkg)`: the first `k` are handled. */
  ghost predicate Exploring(g: Graph, entry: Search, s: Search, gray: set<string>, pkg: Package, k: nat)
    requires k <= |pkg.deps|
  {
    var v := pkg.short;
    && Inv(g, s, gray + {v})
    && Extends(Push(entry, pkg), s)
    && KeepsLow(entry, s)
    && s.lowLinks[v] <= s.indices[v]
    && LowWitness(g, Push(entry, pkg), v, s.lowLinks[v])
    && (forall d :: d in pkg.deps[..k] && d in g ==> d in s.indices)
    && LowBoundsBut(g, entry, s, s.lowLinks[v], pkg.deps[..k])
  }

  /** As `LowBounds`, where of the lowest new stack element only the edges to `done` count. */
  ghost predicate LowBoundsBut(g: Graph, entry: Search, s: Search, low: int, done: seq<string>) {
    forall i, w ::
      (|entry.stack| <= i < |s.stack| && w in entry.stacked && w in entry.indices
       && Edge(g, s.stack[i].short, w) && (i == |entry.stack| ==> w in done)) ==>
      low <= entry.indices[w]
  }

  /** The situation of an active call: what `visit` may assume when it starts. */
  ghost predicate Entered(g: Graph, entry: Search, gray: set<string>, pkg: Package) {
    && Inv(g, entry, gray)
    && pkg.short in g && g[pkg.short] == pkg && pkg.short !in entry.indices
    && forall x :: x in gray ==> Reach(g, x, pkg.short)
  }

  lemma StartExploring(g: Graph, entry: Search, gray: set<string>, pkg: Package)
    requires Entered(g, entry, gray, pkg)
    ensures Exploring(g, entry, Push(entry, pkg), gray, pkg, 0)
  {
    var t := Push(entry, pkg);
    PushKeeps(g, entry, gray, pkg);
    ReachRefl(g, pkg.short);
    assert pkg.short in t.stacked && t.indices[pkg.short] == t.lowLinks[pkg.short];
    assert LowWitness(g, t, pkg.short, t.lowLinks[pkg.short]);
  }

  /** Stack positions above the entry's stack hold packages visited no earlier than `pkg`. */
  lemma UpperIndex(g: Graph, entry: Search, s: Search, pkg: Package, i: nat)
    requires Shape(g, entry) && Shape(g, s) && Extends(Push(entry, pkg), s) && pkg.short !in entry.indices
    requires i < |s.stack|
    ensures s.indices[pkg.short] == entry.next
    ensures i < |entry.stack| ==> s.indices[s.stack[i].short] < entry.next && s.stack[i].short in entry.stacked
    ensures i >= |entry.stack| ==> entry.next <= s.indices[s.stack[i].short] && s.stack[i].short !in entry.stacked
  {
    var t, n := Push(entry, pkg), |entry.stack|;
    assert s.stack[n] == t.stack[n] == pkg;
    if i < n {
      assert s.stack[i] == t.stack[i] == entry.stack[i];
      assert t.indices[s.stack[i].short] == entry.indices[s.stack[i].short];
    } else {
      assert i > n ==> s.indices[s.stack[n].short] < s.indices[s.stack[i].short];
      assert forall p :: p in entry.stack ==>
        s.indices[p.short] == t.indices[p.short] == entry.indices[p.short] < entry.next;
    }
  }

  lemma StackPosition(g: Graph, s: Search, u: string) returns (i: nat)
    requires Shape(g, s) && u in s.stacked
    ensures i < |s.stack| && s.stack[i].short == u
  {
    var p :| p in s.stack && p.short == u;
    i :| 0 <= i < |s.stack| && s.stack[i] == p;
  }

  /** A stacked package lies either in the entry's stack or in the part above it, and its
      index tells which. */
  lemma UpperPart(g: Graph, entry: Search, s: Search, pkg: Package, u: string)
    requires Shape(g, entry) && Shape(g, s) && Extends(Push(entry, pkg), s) && pkg.short !in entry.indices
    requires u in s.stacked
    ensures u in Names(s.stack[|entry.stack|..]) <==> u !in entry.stacked
    ensures u in entry.stacked <==> s.indices[u] < entry.next
    ensures s.indices[pkg.short] == entry.next
  {
    var n := |entry.stack|;
    var i := StackPosition(g, s, u);
    UpperIndex(g, entry, s, pkg, i);
    assert n <= |s.stack|;
    hide Shape, Extends;
    if i < n {
      forall q | q in s.stack[n..]
        ensures q.short != u
      {
        var j :| n <= j < |s.stack| && s.stack[j] == q;
        UpperIndex(g, entry, s, pkg, j);
      }
    } else {
      assert s.stack[i] == s.stack[n..][i - n];
    }
  }

  // ---------------------------------------------------------------- one dependency

  function WithLow(s: Search, v: string, low: nat): Search {
    s.(lowLinks := s.lowLinks[v := low])
  }

  lemma WithLowKeeps(g: Graph, s: Search, gray: set<string>, v: string, low: nat)
    requires Inv(g, s, gray) && v in s.indices
    ensures Inv(g, WithLow(s, v, low), gray)
  {
    var t := WithLow(s, v, low);
    assert forall u :: Settled(t, u) <==> Settled(s, u);
    assert Ascends(g, t, gray) by {
      forall y | y in t.stacked
        ensures ReachesActive(g, t, gray, y)
      {
        assert ReachesActive(g, s, gray, y);
      }
    }
  }

  lemma ExtendsTrans(a: Search, b: Search, c: Search)
    requires Extends(a, b) && Extends(b, c)
    ensures Extends(a, c)
  {
  }

  lemma LowerWitness(g: Graph, entry: Search, a: Search, gray: set<string>, pkg: Package, d: string, low: nat)
    requires Entered(g, entry, gray, pkg)
    requires Inv(g, a, gray + {pkg.short}) && Extends(Push(entry, pkg), a)
    requires Edge(g, pkg.short, d) && LowWitness(g, a, d, low) && low <= entry.next
    ensures LowWitness(g, Push(entry, pkg), pkg.short, low)
  {
    var v := pkg.short;
    var y :| y in a.stacked && y in a.indices && a.indices[y] == low && Reach(g, d, y);
    ReachEdge(g, v, d);
    ReachTrans(g, v, d, y);
    UpperPart(g, entry, a, pkg, y);
    var t := Push(entry, pkg);
    if y in entry.stacked {
      assert y in t.stacked && t.indices[y] == low;
    } else {
      ReachRefl(g, v);
      assert v in t.stacked && t.indices[v] == low;
    }
  }

  /** One edge of the grown stack to a package of the entry's stack. */
  lemma LowAfterCall(g: Graph, entry: Search, a: Search, b: Search, pkg: Package, k: nat, low0: nat, low: nat, i: nat,
          w: string)
    requires k < |pkg.deps|
    requires LowBoundsBut(g, entry, a, low0, pkg.deps[..k]) && LowBounds(g, a, b, low)
    requires w in a.stacked && w in a.indices && w in entry.stacked && w in entry.indices
    requires a.indices[w] == entry.indices[w]
    requires |entry.stack| <= i < |b.stack| && a.stack <= b.stack && Edge(g, b.stack[i].short, w)
    requires i == |entry.stack| ==> w in pkg.deps[..k + 1]
    requires pkg.deps[k] !in a.indices
    requires |entry.stack| < |a.stack|
    ensures Min(low0, low) <= entry.indices[w]
  {
  }

  lemma LowBoundsAfterCall(g: Graph, entry: Search, a: Search, b: Search, pkg: Package, k: nat, low0: nat, low: nat)
    requires k < |pkg.deps|
    requires Shape(g, entry) && Shape(g, a) && pkg.short !in entry.indices && Extends(Push(entry, pkg), a)
    requires LowBoundsBut(g, entry, a, low0, pkg.deps[..k])
    requires pkg.deps[k] !in a.indices && a.stack <= b.stack
    requires LowBounds(g, a, b, low)
    ensures LowBoundsBut(g, entry, b, Min(low0, low), pkg.deps[..k + 1])
  {
    forall i, w | |entry.stack| <= i < |b.stack| && w in entry.stacked && w in entry.indices &&
        Edge(g, b.stack[i].short, w) && (i == |entry.stack| ==> w in pkg.deps[..k + 1])
      ensures Min(low0, low) <= entry.indices[w]
    {
      assert Push(entry, pkg).indices[w] == entry.indices[w] == a.indices[w];
      StillStacked(g, entry, a, pkg, w);
      LowAfterCall(g, entry, a, b, pkg, k, low0, low, i, w);
    }
  }

  lemma StillStacked(g: Graph, entry: Search, a: Search, pkg: Package, w: string)
    requires Shape(g, entry) && Shape(g, a) && Extends(Push(entry, pkg), a)
    requires w in entry.stacked
    ensures w in a.stacked
  {
    var p :| p in entry.stack && p.short == w;
    var i :| 0 <= i < |entry.stack| && entry.stack[i] == p;
    assert a.stack[i] == Push(entry, pkg).stack[i] == p;
  }

  lemma StepTreeLow(g: Graph, entry: Search, a: Search, b: Search, gray: set<string>, pkg: Package, k: nat)
    requires k < |pkg.deps|
    requires Entered(g, entry, gray, pkg) && Exploring(g, entry, a, gray, pkg, k)
    requires var d := pkg.deps[k]; d in g && d !in a.indices && Visited(g, a, b, gray + {pkg.short}, d)
    ensures pkg.short in b.lowLinks && pkg.short in b.indices
    ensures b.lowLinks[pkg.short] == a.lowLinks[pkg.short] <= b.indices[pkg.short] == entry.next
    ensures LowWitness(g, Push(entry, pkg), pkg.short, Min(b.lowLinks[pkg.short], b.lowLinks[pkg.deps[k]]))
  {
    var v, d := pkg.short, pkg.deps[k];
    var low := Min(b.lowLinks[v], b.lowLinks[d]);
    assert v in Push(entry, pkg).indices;
    assert Push(entry, pkg).indices[v] == a.indices[v] == entry.next == b.indices[v];
    if d in b.stacked {
      if low == b.lowLinks[d] {
        LowerWitness(g, entry, a, gray, pkg, d, low);
      }
    } else {
      assert low == b.lowLinks[v];
    }
  }

  /** Writing `pkg`'s own low-link disturbs nothing else. */
  lemma WithLowFrame(g: Graph, entry: Search, b: Search, pkg: Package, low: nat, done: seq<string>, low1: int)
    requires Extends(Push(entry, pkg), b) && KeepsLow(entry, b) && pkg.short !in entry.lowLinks
    requires LowBoundsBut(g, entry, b, low1, done)
    ensures Extends(Push(entry, pkg), WithLow(b, pkg.short, low))
    ensures KeepsLow(entry, WithLow(b, pkg.short, low))
    ensures LowBoundsBut(g, entry, WithLow(b, pkg.short, low), low1, done)
  {
  }

  lemma StepTreeFrame(g: Graph, entry: Search, a: Search, b: Search, pkg: Package, k: nat)
    requires k < |pkg.deps|
    requires Shape(g, entry) && Shape(g, a) && pkg.short !in entry.indices && Extends(Push(entry, pkg), a)
    requires KeepsLow(entry, a)
    requires pkg.short in a.lowLinks && LowBoundsBut(g, entry, a, a.lowLinks[pkg.short], pkg.deps[..k])
    requires pkg.deps[k] !in a.indices && pkg.deps[k] in b.indices && Extends(a, b) && KeepsLow(a, b)
    requires pkg.deps[k] in b.lowLinks && LowBounds(g, a, b, b.lowLinks[pkg.deps[k]])
    requires forall d :: d in pkg.deps[..k] && d in g ==> d in a.indices
    ensures pkg.short in b.lowLinks && b.lowLinks[pkg.short] == a.lowLinks[pkg.short]
    ensures var c := WithLow(b, pkg.short, Min(b.lowLinks[pkg.short], b.lowLinks[pkg.deps[k]]));
            && Extends(Push(entry, pkg), c) && KeepsLow(entry, c)
            && LowBoundsBut(g, entry, c, c.lowLinks[pkg.short], pkg.deps[..k + 1])
    ensures forall d :: d in pkg.deps[..k + 1] && d in g ==> d in b.indices
  {
    NextDepSeen(g, a, b, pkg, k);
    ExtendsTrans(Push(entry, pkg), a, b);
    assert a.stack <= b.stack && pkg.short in b.lowLinks && b.lowLinks[pkg.short] == a.lowLinks[pkg.short];
    assert KeepsLow(entry, b) && pkg.short !in entry.lowLinks;
    hide Shape, Extends, KeepsLow, LowBounds, LowBoundsBut;
    LowBoundsAfterCall(g, entry, a, b, pkg, k, a.lowLinks[pkg.short], b.lowLinks[pkg.deps[k]]);
    var low := Min(b.lowLinks[pkg.short], b.lowLinks[pkg.deps[k]]);
    WithLowFrame(g, entry, b, pkg, low, pkg.deps[..k + 1], low);
  }

  lemma NextDepSeen(g: Graph, a: Search, b: Search, pkg: Package, k: nat)
    requires k < |pkg.deps| && Extends(a, b) && pkg.deps[k] in b.indices
    requires forall d :: d in pkg.deps[..k] && d in g ==> d in a.indices
    ensures forall d :: d in pkg.deps[..k + 1] && d in g ==> d in b.indices
  {
  }

  /** `visit(target)` was called for the next dependency and its low-link merged. */
  lemma StepTree(g: Graph, entry: Search, a: Search, b: Search, gray: set<string>, pkg: Package, k: nat)
    requires k < |pkg.deps|
    requires Entered(g, entry, gray, pkg) && Exploring(g, entry, a, gray, pkg, k)
    requires var d := pkg.deps[k]; d in g && d !in a.indices && Visited(g, a, b, gray + {pkg.short}, d)
    ensures pkg.short in b.lowLinks && pkg.deps[k] in b.lowLinks
    ensures Exploring(g, entry, WithLow(b, pkg.short, Min(b.lowLinks[pkg.short], b.lowLinks[pkg.deps[k]])),
                      gray, pkg, k + 1)
  {
    StepTreeFrame(g, entry, a, b, pkg, k);
    StepTreeLow(g, entry, a, b, gray, pkg, k);
    WithLowKeeps(g, b, gray + {pkg.short}, pkg.short, Min(b.lowLinks[pkg.short], b.lowLinks[pkg.deps[k]]));
  }

  lemma StepStackedFrame(g: Graph, entry: Search, s: Search, pkg: Package, k: nat)
    requires k < |pkg.deps|
    requires Shape(g, entry) && Shape(g, s) && pkg.short !in entry.indices && Extends(Push(entry, pkg), s)
    requires KeepsLow(entry, s)
    requires pkg.short in s.lowLinks && LowBoundsBut(g, entry, s, s.lowLinks[pkg.short], pkg.deps[..k])
    requires pkg.deps[k] in s.indices
    requires forall d :: d in pkg.deps[..k] && d in g ==> d in s.indices
    ensures var c := WithLow(s, pkg.short, Min(s.lowLinks[pkg.short], s.indices[pkg.deps[k]]));
            && Extends(Push(entry, pkg), c) && KeepsLow(entry, c)
            && LowBoundsBut(g, entry, c, c.lowLinks[pkg.short], pkg.deps[..k + 1])
    ensures forall d :: d in pkg.deps[..k + 1] && d in g ==> d in s.indices
  {
    var d := pkg.deps[k];
    var low := Min(s.lowLinks[pkg.short], s.indices[d]);
    assert pkg.deps[..k + 1] == pkg.deps[..k] + [d];
    forall i, w | |entry.stack| <= i < |s.stack| && w in entry.stacked && w in entry.indices &&
        Edge(g, s.stack[i].short, w) && (i == |entry.stack| ==> w in pkg.deps[..k + 1])
      ensures low <= entry.indices[w]
    {
      assert Push(entry, pkg).indices[w] == entry.indices[w] == s.indices[w];
    }
    WithLowFrame(g, entry, s, pkg, low, pkg.deps[..k + 1], low);
  }

  /** The next dependency is on the stack: its index is merged into the low-link. */
  lemma StepStacked(g: Graph, entry: Search, s: Search, gray: set<string>, pkg: Package, k: nat)
    requires k < |pkg.deps|
    requires Entered(g, entry, gray, pkg) && Exploring(g, entry, s, gray, pkg, k)
    requires pkg.deps[k] in g && pkg.deps[k] in s.indices && pkg.deps[k] in s.stacked
    ensures Exploring(g, entry, WithLow(s, pkg.short, Min(s.lowLinks[pkg.short], s.indices[pkg.deps[k]])),
                      gray, pkg, k + 1)
  {
    var v, d := pkg.short, pkg.deps[k];
    StepStackedFrame(g, entry, s, pkg, k);
    WithLowKeeps(g, s, gray + {v}, v, Min(s.lowLinks[v], s.indices[d]));
    UpperIndex(g, entry, s, pkg, |entry.stack|);
    if s.indices[d] < s.lowLinks[v] {
      ReachRefl(g, d);
      assert LowWitness(g, s, d, s.indices[d]);
      LowerWitness(g, entry, s, gray, pkg, d, s.indices[d]);
    }
  }

  lemma StepSkipBounds(g: Graph, entry: Search, s: Search, pkg: Package, k: nat)
    requires k < |pkg.deps|
    requires Shape(g, entry) && Shape(g, s) && Extends(Push(entry, pkg), s)
    requires pkg.short in s.lowLinks && LowBoundsBut(g, entry, s, s.lowLinks[pkg.short], pkg.deps[..k])
    requires pkg.deps[k] !in g || Settled(s, pkg.deps[k])
    ensures LowBoundsBut(g, entry, s, s.lowLinks[pkg.short], pkg.deps[..k + 1])
  {
    assert pkg.deps[..k + 1] == pkg.deps[..k] + [pkg.deps[k]];
    forall i, w | |entry.stack| <= i < |s.stack| && w in entry.stacked && w in entry.indices &&
        Edge(g, s.stack[i].short, w) && (i == |entry.stack| ==> w in pkg.deps[..k + 1])
      ensures s.lowLinks[pkg.short] <= entry.indices[w]
    {
      StillStacked(g, entry, s, pkg, w);
      assert w != pkg.deps[k];
    }
  }

  /** The next dependency is no package of the graph, or its component is settled. */
  lemma StepSkip(g: Graph, entry: Search, s: Search, gray: set<string>, pkg: Package, k: nat)
    requires k < |pkg.deps|
    requires Entered(g, entry, gray, pkg) && Exploring(g, entry, s, gray, pkg, k)
    requires pkg.deps[k] !in g || Settled(s, pkg.deps[k])
    ensures Exploring(g, entry, s, gray, pkg, k + 1)
  {
    assert Shape(g, entry) && Shape(g, s);
    hide Shape, Extends, KeepsLow, LowWitness, LowBoundsBut;
    hide SettledClosed, FinishedSeesVisited, Ascends, Descends, ComponentsExact;
    StepSkipBounds(g, entry, s, pkg, k);
    hide Edge, Settled, Inv;
    SkippedSeen(g, s, pkg, k);
  }

  lemma SkippedSeen(g: Graph, s: Search, pkg: Package, k: nat)
    requires k < |pkg.deps| && (pkg.deps[k] !in g || Settled(s, pkg.deps[k]))
    requires forall d :: d in pkg.deps[..k] && d in g ==> d in s.indices
    ensures forall d :: d in pkg.deps[..k + 1] && d in g ==> d in s.indices
  {
  }

  // ---------------------------------------------------------------- the end of a call

  lemma FinishSees(g: Graph, s: Search, gray: set<string>, pkg: Package)
    requires pkg.short in g && g[pkg.short] == pkg
    requires FinishedSeesVisited(g, s, gray + {pkg.short})
    requires forall d :: d in pkg.deps && d in g ==> d in s.indices
    ensures FinishedSeesVisited(g, s, gray)
  {
  }

  /** The low-link's witness lies on the entry's stack, below an active call. */
  lemma ActiveBelow(g: Graph, entry: Search, s: Search, gray: set<string>, pkg: Package) returns (x0: string)
    requires Entered(g, entry, gray, pkg) && Extends(Push(entry, pkg), s)
    requires pkg.short in s.lowLinks && s.lowLinks[pkg.short] < entry.next
    requires LowWitness(g, Push(entry, pkg), pkg.short, s.lowLinks[pkg.short])
    ensures x0 in gray && Reach(g, pkg.short, x0)
    ensures x0 in s.indices && pkg.short in s.indices && s.indices[x0] <= s.indices[pkg.short]
  {
    var v, t := pkg.short, Push(entry, pkg);
    var y0 :| y0 in t.stacked && y0 in t.indices && t.indices[y0] == s.lowLinks[v] && Reach(g, v, y0);
    assert y0 in entry.stacked;
    assert ReachesActive(g, entry, gray, y0);
    x0 :| x0 in gray && entry.indices[x0] <= entry.indices[y0] && Reach(g, y0, x0);
    ReachTrans(g, v, y0, x0);
    assert s.indices[x0] == t.indices[x0] == entry.indices[x0];
    assert s.indices[v] == t.indices[v] == entry.next;
  }

  lemma KeepAscends(g: Graph, entry: Search, s: Search, gray: set<string>, pkg: Package)
    requires Entered(g, entry, gray, pkg) && Inv(g, s, gray + {pkg.short}) && Extends(Push(entry, pkg), s)
    requires pkg.short in s.lowLinks && s.lowLinks[pkg.short] < entry.next
    requires LowWitness(g, Push(entry, pkg), pkg.short, s.lowLinks[pkg.short])
    ensures Ascends(g, s, gray)
  {
    var v := pkg.short;
    var x0 := ActiveBelow(g, entry, s, gray, pkg);
    assert Ascends(g, s, gray + {v}) && s.stacked <= s.indices.Keys && gray <= s.stacked;
    hide Inv, Entered, Extends, LowWitness, Reach;
    forall y | y in s.stacked
      ensures ReachesActive(g, s, gray, y)
    {
      assert ReachesActive(g, s, gray + {v}, y);
      var x :| x in gray + {v} && s.indices[x] <= s.indices[y] && Reach(g, y, x);
      if x == v {
        ReachTrans(g, y, v, x0);
      }
    }
  }

  lemma PopFrame(g: Graph, entry: Search, s: Search, pkg: Package)
    requires pkg.short !in entry.indices && Extends(Push(entry, pkg), s)
    ensures Extends(entry, s)
  {
  }

  lemma AllBounds(g: Graph, entry: Search, s: Search, pkg: Package)
    requires pkg.short in g && g[pkg.short] == pkg && Extends(Push(entry, pkg), s)
    requires pkg.short in s.lowLinks && LowBoundsBut(g, entry, s, s.lowLinks[pkg.short], pkg.deps)
    ensures LowBounds(g, entry, s, s.lowLinks[pkg.short])
  {
  }

  /** The call ends with a smaller low-link: the package stays on the stack. */
  lemma KeepVisited(g: Graph, entry: Search, s: Search, gray: set<string>, pkg: Package)
    requires Entered(g, entry, gray, pkg) && Exploring(g, entry, s, gray, pkg, |pkg.deps|)
    requires s.lowLinks[pkg.short] != s.indices[pkg.short]
    ensures Visited(g, entry, s, gray, pkg.short)
  {
    var v := pkg.short;
    assert pkg.deps[..|pkg.deps|] == pkg.deps;
    PopFrame(g, entry, s, pkg);
    AllBounds(g, entry, s, pkg);
    FinishSees(g, s, gray, pkg);
    UpperIndex(g, entry, s, pkg, |entry.stack|);
    KeepAscends(g, entry, s, gray, pkg);
    KeepWitness(g, entry, s, gray, pkg);
    KeepInv(g, entry, s, gray, pkg);
  }

  lemma KeepInv(g: Graph, entry: Search, s: Search, gray: set<string>, pkg: Package)
    requires Inv(g, s, gray + {pkg.short})
    requires Ascends(g, s, gray) && FinishedSeesVisited(g, s, gray)
    ensures Inv(g, s, gray)
  {
  }

  lemma KeepWitness(g: Graph, entry: Search, s: Search, gray: set<string>, pkg: Package)
    requires pkg.short in s.lowLinks && s.lowLinks[pkg.short] < entry.next
    requires entry.stacked <= entry.indices.Keys && pkg.short !in entry.indices
    requires LowWitness(g, Push(entry, pkg), pkg.short, s.lowLinks[pkg.short])
    ensures LowWitness(g, entry, pkg.short, s.lowLinks[pkg.short])
  {
  }

  // ---------------------------------------------------------------- emitting a component

  /** The names of the stack above the entry's stack. */
  ghost function Upper(entry: Search, s: Search): set<string>
    requires entry.stack <= s.stack
  {
    Names(s.stack[|entry.stack|..])
  }

  /** What is known when `visit(pkg)` finds its low-link equal to its own index. */
  ghost predicate AtRoot(g: Graph, entry: Search, s: Search, gray: set<string>, pkg: Package) {
    && Entered(g, entry, gray, pkg)
    && Inv(g, s, gray + {pkg.short})
    && Extends(Push(entry, pkg), s)
    && FinishedSeesVisited(g, s, gray)
    && LowBounds(g, entry, s, entry.next)
  }

  lemma RootMutual(g: Graph, entry: Search, s: Search, gray: set<string>, pkg: Package, y: string)
    requires AtRoot(g, entry, s, gray, pkg)
    requires y in s.stacked && y !in entry.stacked
    ensures Mutual(g, pkg.short, y)
  {
    var v, t := pkg.short, Push(entry, pkg);
    UpperPart(g, entry, s, pkg, y);
    assert ReachesActive(g, s, gray + {v}, y);
    var x :| x in gray + {v} && s.indices[x] <= s.indices[y] && Reach(g, y, x);
    assert s.indices[x] <= s.indices[v] by {
      assert s.indices[x] == t.indices[x];
    }
    ReachTrans(g, y, x, v);
  }

  lemma UpperSees(g: Graph, entry: Search, s: Search, gray: set<string>, pkg: Package, u: string, w: string)
    requires AtRoot(g, entry, s, gray, pkg)
    requires u in s.stacked && u !in entry.stacked && Edge(g, u, w)
    ensures w in s.indices && w !in entry.stacked
  {
    var p :| p in s.stack && p.short == u;
    var i :| 0 <= i < |s.stack| && s.stack[i] == p;
    UpperIndex(g, entry, s, pkg, i);
    assert u !in gray;
    assert w in s.indices;
  }

  lemma UpperWithSettledClosed(g: Graph, entry: Search, s: Search, gray: set<string>, pkg: Package)
    requires AtRoot(g, entry, s, gray, pkg)
    ensures Closed(g, s.indices.Keys - entry.stacked)
  {
    forall u, w | u in s.indices.Keys - entry.stacked && Edge(g, u, w)
      ensures w in s.indices.Keys - entry.stacked
    {
      if u in s.stacked {
        UpperSees(g, entry, s, gray, pkg, u, w);
      } else {
        assert Settled(s, u) && Settled(s, w);
        if w in entry.stacked {
          StillStacked(g, entry, s, pkg, w);
        }
      }
    }
  }

  lemma UpperMaximal(g: Graph, entry: Search, s: Search, gray: set<string>, pkg: Package, x: string, w: string)
    requires AtRoot(g, entry, s, gray, pkg)
    requires x in s.stacked && x !in entry.stacked && Mutual(g, x, w)
    ensures w in s.stacked && w !in entry.stacked
  {
    UpperWithSettledClosed(g, entry, s, gray, pkg);
    ReachStays(g, s.indices.Keys - entry.stacked, x, w);
    if w !in s.stacked {
      var settled := s.indices.Keys - s.stacked;
      assert Closed(g, settled) by {
        forall a, b | a in settled && Edge(g, a, b)
          ensures b in settled
        {
          assert Settled(s, a) && Settled(s, b);
        }
      }
      ReachStays(g, settled, w, x);
    }
  }

  lemma UpperIsScc(g: Graph, entry: Search, s: Search, gray: set<string>, pkg: Package)
    requires AtRoot(g, entry, s, gray, pkg)
    ensures Upper(entry, s) == s.stacked - entry.stacked
    ensures IsScc(g, Upper(entry, s))
  {
    var c, v := s.stacked - entry.stacked, pkg.short;
    forall u
      ensures u in Upper(entry, s) <==> u in c
    {
      if u in s.stacked {
        UpperPart(g, entry, s, pkg, u);
      }
    }
    UpperIndex(g, entry, s, pkg, |entry.stack|);
    assert v in c;
    forall x, w | x in c && w in g
      ensures w in c <==> Mutual(g, x, w)
    {
      if w in c {
        RootMutual(g, entry, s, gray, pkg, x);
        RootMutual(g, entry, s, gray, pkg, w);
        ReachTrans(g, x, v, w);
        ReachTrans(g, w, v, x);
      } else if Mutual(g, x, w) {
        UpperMaximal(g, entry, s, gray, pkg, x, w);
      }
    }
  }

  function Reversed(s: seq<Package>): seq<Package> {
    seq(|s|, i requires 0 <= i < |s| => s[|s| - 1 - i])
  }

  /** The state after the stack above the entry's stack became one component. */
  ghost function Pop(entry: Search, s: Search): Search
    requires entry.stack <= s.stack
  {
    s.(stack := entry.stack, stacked := entry.stacked,
       components := s.components + [Reversed(s.stack[|entry.stack|..])])
  }

  lemma ReversedNames(up: seq<Package>)
    ensures forall p :: p in Reversed(up) <==> p in up
    ensures Names(Reversed(up)) == Names(up)
  {
    var c := Reversed(up);
    forall p
      ensures p in c <==> p in up
    {
      if p in up {
        var i :| 0 <= i < |up| && up[i] == p;
        assert c[|up| - 1 - i] == p;
      }
    }
  }

  lemma ReversedDistinct(g: Graph, s: Search, n: nat)
    requires Shape(g, s) && n <= |s.stack|
    ensures var c := Reversed(s.stack[n..]); forall i, j :: 0 <= i < j < |c| ==> c[i].short != c[j].short
  {
  }

  lemma ReversedComponent(g: Graph, s: Search, n: nat)
    requires Shape(g, s) && n <= |s.stack|
    requires IsScc(g, Names(s.stack[n..]))
    ensures Names(Reversed(s.stack[n..])) == Names(s.stack[n..])
    ensures IsComponent(g, Reversed(s.stack[n..]))
  {
    ReversedNames(s.stack[n..]);
    ReversedDistinct(g, s, n);
  }

  lemma PopSettled(g: Graph, entry: Search, s: Search, gray: set<string>, pkg: Package, u: string)
    requires AtRoot(g, entry, s, gray, pkg)
    ensures Settled(Pop(entry, s), u) <==> Settled(s, u) || u in Upper(entry, s)
    ensures Settled(s, u) ==> u !in Upper(entry, s)
  {
    UpperIsScc(g, entry, s, gray, pkg);
    if u in entry.stacked {
      StillStacked(g, entry, s, pkg, u);
    }
  }

  lemma PopApart(g: Graph, entry: Search, s: Search, gray: set<string>, pkg: Package, i: nat)
    requires AtRoot(g, entry, s, gray, pkg) && i < |s.components|
    ensures Names(s.components[i]) !! Upper(entry, s)
  {
    hide Entered, Names, Upper, Pop;
    assert ComponentsExact(g, s);
    hide Inv;
    forall u | u in Names(s.components[i])
      ensures u !in Upper(entry, s)
    {
      assert Emitted(s.components, u);
      PopSettled(g, entry, s, gray, pkg, u);
    }
  }

  lemma PopEmitted(g: Graph, entry: Search, s: Search, gray: set<string>, pkg: Package, u: string)
    requires AtRoot(g, entry, s, gray, pkg) && Names(Reversed(s.stack[|entry.stack|..])) == Upper(entry, s)
    ensures Settled(Pop(entry, s), u) <==> Emitted(s.components + [Reversed(s.stack[|entry.stack|..])], u)
  {
    hide Entered, Names, Upper, Pop;
    assert ComponentsExact(g, s);
    hide Inv;
    PopSettled(g, entry, s, gray, pkg, u);
    EmittedSnoc(s.components, Reversed(s.stack[|entry.stack|..]), u);
  }

  lemma PopComponents(g: Graph, entry: Search, s: Search, gray: set<string>, pkg: Package)
    requires AtRoot(g, entry, s, gray, pkg)
    ensures ComponentsExact(g, Pop(entry, s))
  {
    var t := Pop(entry, s);
    UpperIsScc(g, entry, s, gray, pkg);
    ReversedComponent(g, s, |entry.stack|);
    assert ComponentsExact(g, s);
    hide Inv, Entered, Names, IsComponent, IsScc, Emitted, Settled;
    forall i | 0 <= i < |s.components|
      ensures Names(s.components[i]) !! Upper(entry, s)
    {
      PopApart(g, entry, s, gray, pkg, i);
    }
    forall u
      ensures Settled(t, u) <==> Emitted(t.components, u)
    {
      PopEmitted(g, entry, s, gray, pkg, u);
    }
    hide Pop, Upper, Reversed, ComponentsExact;
    ComponentsSnoc(g, s, t, Reversed(s.stack[|entry.stack|..]));
  }

  lemma ComponentsSnoc(g: Graph, s: Search, t: Search, c: seq<Package>)
    requires ComponentsExact(g, s) && t.components == s.components + [c] && IsComponent(g, c)
    requires forall i :: 0 <= i < |s.components| ==> Names(s.components[i]) !! Names(c)
    requires forall u :: Settled(t, u) <==> Emitted(t.components, u)
    ensures ComponentsExact(g, t)
  {
    hide Names, IsComponent, Settled, Emitted;
  }

  lemma EmittedSnoc(cs: seq<seq<Package>>, c: seq<Package>, u: string)
    ensures Emitted(cs + [c], u) <==> Emitted(cs, u) || u in Names(c)
  {
    var ds := cs + [c];
    if Emitted(cs, u) {
      var k :| 0 <= k < |cs| && u in Names(cs[k]);
      assert ds[k] == cs[k];
    }
    if u in Names(c) {
      assert ds[|cs|] == c;
    }
  }

  lemma PopClosed(g: Graph, entry: Search, s: Search, gray: set<string>, pkg: Package)
    requires AtRoot(g, entry, s, gray, pkg)
    ensures SettledClosed(g, Pop(entry, s))
  {
    UpperWithSettledClosed(g, entry, s, gray, pkg);
    var t := Pop(entry, s);
    assert forall u :: Settled(t, u) <==> u in s.indices.Keys - entry.stacked;
  }

  lemma PopActive(g: Graph, entry: Search, s: Search, gray: set<string>, pkg: Package)
    requires AtRoot(g, entry, s, gray, pkg)
    ensures entry.stacked <= s.indices.Keys
    ensures Ascends(g, Pop(entry, s), gray) && Descends(g, Pop(entry, s), gray)
  {
    var t := Pop(entry, s);
    PopFrame(g, entry, s, pkg);
    forall y | y in t.stacked
      ensures ReachesActive(g, t, gray, y)
    {
      assert ReachesActive(g, entry, gray, y);
      var x :| x in gray && entry.indices[x] <= entry.indices[y] && Reach(g, y, x);
      assert t.indices[x] <= t.indices[y];
    }
  }

  lemma PopShape(g: Graph, entry: Search, s: Search)
    requires Shape(g, entry) && Shape(g, s) && Extends(entry, s)
    ensures Shape(g, Pop(entry, s))
  {
  }

  /** The call ends with its own index as low-link: a component is emitted. */
  lemma PopVisited(g: Graph, entry: Search, s: Search, gray: set<string>, pkg: Package)
    requires Entered(g, entry, gray, pkg) && Exploring(g, entry, s, gray, pkg, |pkg.deps|)
    requires s.lowLinks[pkg.short] == s.indices[pkg.short]
    ensures entry.stack <= s.stack && Visited(g, entry, Pop(entry, s), gray, pkg.short)
  {
    assert pkg.deps[..|pkg.deps|] == pkg.deps;
    PopFrame(g, entry, s, pkg);
    AllBounds(g, entry, s, pkg);
    FinishSees(g, s, gray, pkg);
    UpperIndex(g, entry, s, pkg, |entry.stack|);
    assert AtRoot(g, entry, s, gray, pkg);
    PopRoot(g, entry, s, gray, pkg);
  }

  lemma PopRoot(g: Graph, entry: Search, s: Search, gray: set<string>, pkg: Package)
    requires AtRoot(g, entry, s, gray, pkg) && Extends(entry, s) && KeepsLow(entry, s)
    requires pkg.short in s.lowLinks && s.lowLinks[pkg.short] == s.indices[pkg.short]
    ensures Visited(g, entry, Pop(entry, s), gray, pkg.short)
  {
    PopShape(g, entry, s);
    PopActive(g, entry, s, gray, pkg);
    PopClosed(g, entry, s, gray, pkg);
    PopComponents(g, entry, s, gray, pkg);
  }

  // ---------------------------------------------------------------- the algorithm

  /** Popping one package at a time: `c` holds what was popped above position `n`. */
  ghost predicate Popping(s: Search, n: nat, stack: seq<Package>, stacked: set<string>, c: seq<Package>) {
    && n <= |s.stack|
    && stack == s.stack[..n]
    && stacked == Names(s.stack[..n])
    && c == Reversed(s.stack[n..])
  }

  lemma PopOne(g: Graph, s: Search, n: nat, stack: seq<Package>, stacked: set<string>, c: seq<Package>)
    requires Shape(g, s) && n > 0 && Popping(s, n, stack, stacked, c)
    ensures Popping(s, n - 1, stack[..n - 1], stacked - {stack[n - 1].short}, c + [stack[n - 1]])
  {
    var top := s.stack[n - 1];
    assert s.stack[n - 1..] == [top] + s.stack[n..];
    assert s.stack[..n] == s.stack[..n - 1] + [top];
    assert top.short !in Names(s.stack[..n - 1]) by {
      forall p | p in s.stack[..n - 1]
        ensures p.short != top.short
      {
        var i :| 0 <= i < n - 1 && s.stack[i] == p;
        assert s.indices[s.stack[i].short] < s.indices[top.short];
      }
    }
    assert Names(s.stack[..n]) == Names(s.stack[..n - 1]) + {top.short};
  }

  lemma RootPosition(g: Graph, s: Search, low: nat, n: nat, pkg: Package)
    requires Shape(g, s) && low <= n < |s.stack| && s.stack[low] == pkg == s.stack[n]
    ensures low == n
  {
  }

  lemma FewerLeft(g: Graph, a: set<string>, b: set<string>, v: string)
    requires a <= b && v in b && v !in a && v in g
    ensures |g.Keys - b| < |g.Keys - a|
  {
    assert g.Keys - b <= (g.Keys - a) - {v};
    Counting.SubsetSize(g.Keys - b, (g.Keys - a) - {v});
  }

  /** An unvisited dependency may be entered: every active package reaches it. */
  lemma EnterTarget(g: Graph, entry: Search, s: Search, gray: set<string>, pkg: Package, k: nat)
    requires k < |pkg.deps|
    requires Entered(g, entry, gray, pkg) && Exploring(g, entry, s, gray, pkg, k)
    requires pkg.deps[k] in g && pkg.deps[k] !in s.indices
    ensures Entered(g, s, gray + {pkg.short}, g[pkg.deps[k]])
    ensures |g.Keys - s.indices.Keys| < |g.Keys - entry.indices.Keys|
  {
    var v, d, t := pkg.short, pkg.deps[k], Push(entry, pkg);
    assert Edge(g, v, d);
    forall x | x in gray + {v}
      ensures Reach(g, x, d)
    {
      ReachRefl(g, v);
      ReachStep(g, x, v, d);
    }
    assert v in t.indices && v in s.indices;
    assert forall u :: u in entry.indices ==> u in t.indices && u in s.indices;
    FewerLeft(g, entry.indices.Keys, s.indices.Keys, v);
  }

  lemma ExploringFacts(g: Graph, entry: Search, s: Search, gray: set<string>, pkg: Package, k: nat)
    requires k <= |pkg.deps|
    requires Entered(g, entry, gray, pkg) && Exploring(g, entry, s, gray, pkg, k)
    ensures pkg.short in s.lowLinks && pkg.short in s.indices
    ensures g[pkg.short] == pkg && Keyed(g)
    ensures Shape(g, s) && entry.stack + [pkg] <= s.stack && entry.stacked == Names(entry.stack)
    ensures s.lowLinks.Keys == s.indices.Keys
  {
  }

  lemma PopNone(g: Graph, s: Search)
    requires Shape(g, s)
    ensures Popping(s, |s.stack|, s.stack, s.stacked, [])
  {
  }

  /** The closure variables of one call of `sinkCycles` and its inner function `visit`. */
  class Traversal {
    const remaining: Graph
    var nextIndex: nat
    var indices: map<string, nat>
    var lowLinks: map<string, nat>
    var stack: seq<Package>
    var stacked: set<string>
    var components: seq<seq<Package>>

    ghost function Now(): Search
      reads this
    {
      Search(nextIndex, indices, lowLinks, stack, stacked, components)
    }

    constructor (remaining: Graph)
      requires Keyed(remaining)
      ensures this.remaining == remaining
      ensures Inv(remaining, Now(), {}) && stack == [] && indices == map[]
    {
      this.remaining := remaining;
      nextIndex, indices, lowLinks, stack, stacked, components := 0, map[], map[], [], {}, [];
    }

    /** `gray` is the set of packages whose `visit` call is active. */
    method Visit(pkg: Package, ghost gray: set<string>)
      requires Entered(remaining, Now(), gray, pkg)
      modifies this
      ensures Visited(remaining, old(Now()), Now(), gray, pkg.short)
      decreases |remaining.Keys - indices.Keys|, 1
    {
      hide Inv, Extends, LowWitness, LowBoundsBut, KeepsLow, LowBounds, Visited, Entered, Exploring, Shape;
      ghost var entry := Now();
      var index := nextIndex;
      nextIndex := nextIndex + 1;
      indices := indices[pkg.short := index];
      lowLinks := lowLinks[pkg.short := index];
      stack := stack + [pkg];
      stacked := stacked + {pkg.short};
      assert Now() == Push(entry, pkg);
      StartExploring(remaining, entry, gray, pkg);
      for k := 0 to |pkg.deps|
        invariant Exploring(remaining, entry, Now(), gray, pkg, k)
      {
        VisitDependency(pkg, k, entry, gray);
      }
      ExploringFacts(remaining, entry, Now(), gray, pkg, |pkg.deps|);
      if lowLinks[pkg.short] != indices[pkg.short] {
        KeepVisited(remaining, entry, Now(), gray, pkg);
      } else {
        PopVisited(remaining, entry, Now(), gray, pkg);
        EmitComponent(pkg, entry);
      }
    }

    /** One round of the loop over `pkg.deps`. */
    method VisitDependency(pkg: Package, k: nat, ghost entry: Search, ghost gray: set<string>)
      requires k < |pkg.deps|
      requires Entered(remaining, entry, gray, pkg) && Exploring(remaining, entry, Now(), gray, pkg, k)
      modifies this
      ensures Exploring(remaining, entry, Now(), gray, pkg, k + 1)
      decreases |remaining.Keys - entry.indices.Keys|, 0
    {
      hide Inv, Extends, LowWitness, LowBoundsBut, KeepsLow, LowBounds, Visited, Entered, Exploring, Shape;
      var dependency := pkg.deps[k];
      ghost var before := Now();
      ExploringFacts(remaining, entry, before, gray, pkg, k);
      if dependency !in remaining {
        StepSkip(remaining, entry, before, gray, pkg, k);
        return;
      }
      var target := remaining[dependency];
      if target.short !in indices {
        EnterTarget(remaining, entry, before, gray, pkg, k);
        Visit(target, gray + {pkg.short});
        StepTree(remaining, entry, before, Now(), gray, pkg, k);
        lowLinks := lowLinks[pkg.short := Min(lowLinks[pkg.short], lowLinks[target.short])];
      } else if target.short in stacked {
        StepStacked(remaining, entry, before, gray, pkg, k);
        lowLinks := lowLinks[pkg.short := Min(lowLinks[pkg.short], indices[target.short])];
      } else {
        StepSkip(remaining, entry, before, gray, pkg, k);
      }
    }

    /** The end of `visit` at a component's root: pop the stack down to `pkg`. */
    method EmitComponent(pkg: Package, ghost entry: Search)
      requires Shape(remaining, Now()) && entry.stack + [pkg] <= stack && entry.stacked == Names(entry.stack)
      modifies this
      ensures Now() == Pop(entry, old(Now()))
    {
      hide Shape, Names, Reversed;
      ghost var s, low, n := Now(), |entry.stack|, |stack|;
      PopNone(remaining, s);
      if stack == [] {
        assert false;  // the first 'lost its active component' throw
      }
      var first := stack[|stack| - 1];
      PopOne(remaining, s, n, stack, stacked, []);
      n := n - 1;
      stack := stack[..|stack| - 1];
      stacked := stacked - {first.short};
      var component := [first];
      var member := first;
      while member != pkg
        invariant low <= n < |s.stack| && member == s.stack[n]
        invariant Popping(s, n, stack, stacked, component)
        invariant nextIndex == s.next && indices == s.indices && lowLinks == s.lowLinks && components == s.components
        decreases n
      {
        if stack == [] {
          assert false;  // the second 'lost its active component' throw
        }
        var next := stack[|stack| - 1];
        PopOne(remaining, s, n, stack, stacked, component);
        n := n - 1;
        stack := stack[..|stack| - 1];
        stacked := stacked - {next.short};
        component := component + [next];
        member := next;
      }
      RootPosition(remaining, s, low, n, pkg);
      assert entry.stack == s.stack[..low];
      components := components + [component];
    }
  }

  // ---------------------------------------------------------------- sinkCycles

  predicate OwnDepsOnly(remaining: Graph, component: seq<Package>, names: set<string>) {
    forall p :: p in component ==> forall d :: d in p.deps ==> d !in remaining || d in names
  }

  /** The filter of `sinkCycles`. */
  predicate KeepsComponent(remaining: Graph, component: seq<Package>)
    requires component != []
  {
    var names := set p <- component :: p.short;
    var first := component[0];
    var cyclic := |component| > 1 || first.short in first.deps;
    cyclic && OwnDepsOnly(remaining, component, names)
  }

  lemma CyclicComponent(g: Graph, c: seq<Package>)
    requires IsComponent(g, c) && c != []
    ensures HasCycle(g, Names(c)) <==> |c| > 1 || c[0].short in c[0].deps
  {
    var u := c[0].short;
    assert c[0] in c && g[u] == c[0];
    if |c| > 1 {
      var v := c[1].short;
      assert c[1] in c && u != v && u in Names(c) && v in Names(c);
      FirstEdgeInside(g, Names(c), u, v);
    } else {
      assert Names(c) == {u};
      assert u in c[0].deps <==> Edge(g, u, u);
    }
  }

  /** Two distinct packages of one component: the walk between them starts with an edge inside it. */
  lemma FirstEdgeInside(g: Graph, c: set<string>, u: string, v: string)
    requires IsScc(g, c) && u in c && v in c && u != v
    ensures exists w :: w in c && Edge(g, u, w)
  {
    assert Mutual(g, u, v);
    var p :| Walk(g, p) && p[0] == u && p[|p| - 1] == v;
    assert Hop(g, p, 0);
    var w := p[1];
    ReachEdge(g, u, w);
    var q := p[1..];
    forall i | 0 <= i < |q| - 1
      ensures Hop(g, q, i)
    {
      assert Hop(g, p, i + 1);
    }
    assert Walk(g, q) && q[0] == w && q[|q| - 1] == v;
    assert Reach(g, w, v);
    ReachTrans(g, w, v, u);
    assert Mutual(g, u, w);
  }

  lemma FilterIsSinkCycle(g: Graph, c: seq<Package>)
    requires IsComponent(g, c) && c != []
    ensures KeepsComponent(g, c) <==> SinkCycle(g, Names(c))
  {
    CyclicComponent(g, c);
    assert OwnDepsOnly(g, c, Names(c)) <==> Closed(g, Names(c)) by {
      if OwnDepsOnly(g, c, Names(c)) {
        forall u, v | u in Names(c) && Edge(g, u, v)
          ensures v in Names(c)
        {
          var p :| p in c && p.short == u;
        }
      } else {
        var p :| p in c && !forall d :: d in p.deps ==> d !in g || d in Names(c);
        var d :| d in p.deps && d in g && d !in Names(c);
        assert Edge(g, p.short, d);
      }
    }
  }

  /** Every package was visited and nothing is active: the components are all there are. */
  lemma AllComponents(g: Graph, s: Search, c: set<string>)
    requires Inv(g, s, {}) && s.indices.Keys == g.Keys && IsScc(g, c)
    ensures exists k :: 0 <= k < |s.components| && Names(s.components[k]) == c
  {
    var u :| u in c;
    assert u in s.stacked ==> ReachesActive(g, s, {}, u);
    assert Settled(s, u);
    assert Emitted(s.components, u);
    var k :| 0 <= k < |s.components| && u in Names(s.components[k]);
    SccsDisjoint(g, Names(s.components[k]), c, u);
  }

  ghost predicate ExactlySinkCycles(g: Graph, cycles: seq<seq<Package>>) {
    && (forall k :: 0 <= k < |cycles| ==> IsComponent(g, cycles[k]) && SinkCycle(g, Names(cycles[k])))
    && (forall i, j :: 0 <= i < j < |cycles| ==> Names(cycles[i]) !! Names(cycles[j]))
    && (forall c :: SinkCycle(g, c) ==> exists k :: 0 <= k < |cycles| && Names(cycles[k]) == c)
  }

  predicate NoneEmpty(cs: seq<seq<Package>>) {
    forall k :: 0 <= k < |cs| ==> cs[k] != []
  }

  function Filtered(remaining: Graph, cs: seq<seq<Package>>): seq<seq<Package>>
    requires NoneEmpty(cs)
  {
    if cs == [] then [] else
      var last := cs[|cs| - 1];
      Filtered(remaining, cs[..|cs| - 1]) + if KeepsComponent(remaining, last) then [last] else []
  }

  lemma {:induction false} FilteredMembers(g: Graph, cs: seq<seq<Package>>)
    requires NoneEmpty(cs)
    ensures forall c :: c in Filtered(g, cs) <==> c in cs && c != [] && KeepsComponent(g, c)
  {
    if cs != [] {
      assert cs == cs[..|cs| - 1] + [cs[|cs| - 1]];
      FilteredMembers(g, cs[..|cs| - 1]);
    }
  }

  ghost predicate PairwiseDisjoint(cs: seq<seq<Package>>) {
    forall i, j :: 0 <= i < j < |cs| ==> Names(cs[i]) !! Names(cs[j])
  }

  lemma {:induction false} FilteredDisjoint(g: Graph, cs: seq<seq<Package>>)
    requires NoneEmpty(cs)
    requires PairwiseDisjoint(cs)
    ensures PairwiseDisjoint(Filtered(g, cs))
  {
    if cs != [] {
      var init, last := cs[..|cs| - 1], cs[|cs| - 1];
      FilteredDisjoint(g, init);
      FilteredMembers(g, init);
      var fs := Filtered(g, init);
      forall i | 0 <= i < |fs|
        ensures Names(fs[i]) !! Names(last)
      {
        assert fs[i] in init;
      }
    }
  }

  lemma FilteredCovers(g: Graph, s: Search, c: set<string>)
    requires Inv(g, s, {}) && s.indices.Keys == g.Keys
    requires NoneEmpty(s.components) && SinkCycle(g, c)
    ensures exists k :: 0 <= k < |Filtered(g, s.components)| && Names(Filtered(g, s.components)[k]) == c
  {
    var cycles := Filtered(g, s.components);
    AllComponents(g, s, c);
    assert ComponentsExact(g, s);
    hide Inv, SinkCycle, IsComponent, KeepsComponent, Names, Settled, Emitted;
    FilteredMembers(g, s.components);
    var k :| 0 <= k < |s.components| && Names(s.components[k]) == c;
    FilterIsSinkCycle(g, s.components[k]);
    assert s.components[k] in cycles;
  }

  lemma FilteredExact(g: Graph, s: Search)
    requires Inv(g, s, {}) && s.indices.Keys == g.Keys
    requires NoneEmpty(s.components)
    ensures ExactlySinkCycles(g, Filtered(g, s.components))
  {
    assert ComponentsExact(g, s);
    hide Inv, SinkCycle, IsComponent, KeepsComponent, Names, Settled, Emitted;
    var cycles := Filtered(g, s.components);
    FilteredMembers(g, s.components);
    FilteredDisjoint(g, s.components);
    forall k | 0 <= k < |cycles|
      ensures IsComponent(g, cycles[k]) && SinkCycle(g, Names(cycles[k]))
    {
      assert cycles[k] in s.components;
      FilterIsSinkCycle(g, cycles[k]);
    }
    forall c | SinkCycle(g, c)
      ensures exists k :: 0 <= k < |cycles| && Names(cycles[k]) == c
    {
      FilteredCovers(g, s, c);
    }
  }

  lemma AfterTopVisit(g: Graph, a: Search, b: Search, v: string)
    requires a.stack == [] && Visited(g, a, b, {}, v)
    ensures Inv(g, b, {}) && b.stack == []
    ensures a.indices.Keys + {v} <= b.indices.Keys
  {
    assert b.stack != [] ==> b.stack[0].short in b.stacked && ReachesActive(g, b, {}, b.stack[0].short);
  }

  /** Whatever order the `Map` yields its packages in, the result holds each sink cycle once. */
  method FindSinkCycles(remaining: Graph) returns (cycles: seq<seq<Package>>)
    requires Keyed(remaining)
    ensures ExactlySinkCycles(remaining, cycles)
  {
    hide Inv, Visited, ExactlySinkCycles;
    var t := new Traversal(remaining);
    var todo := remaining.Keys;
    while todo != {}
      invariant t.remaining == remaining && todo <= remaining.Keys
      invariant Inv(remaining, t.Now(), {}) && t.stack == []
      invariant remaining.Keys - todo <= t.indices.Keys
      decreases todo
    {
      var name :| name in todo;
      todo := todo - {name};
      if remaining[name].short !in t.indices {
        ghost var before := t.Now();
        EnterTop(remaining, before, name);
        t.Visit(remaining[name], {});
        AfterTopVisit(remaining, before, t.Now(), name);
      }
    }
    DoneFacts(remaining, t.Now());
    cycles := Filtered(remaining, t.components);
    FilteredExact(remaining, t.Now());
  }

  lemma EnterTop(g: Graph, s: Search, name: string)
    requires Inv(g, s, {}) && name in g && name !in s.indices
    ensures Entered(g, s, {}, g[name]) && g[name].short == name
  {
  }

  lemma DoneFacts(g: Graph, s: Search)
    requires Inv(g, s, {})
    ensures s.indices.Keys <= g.Keys
    ensures NoneEmpty(s.components)
  {
  }
}
