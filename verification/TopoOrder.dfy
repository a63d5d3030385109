/** The order of `topoSort` in `scripts/package-graph.ts`, in the terms of its caller: positions in the
    configured group order, names, and chains of dependencies. */
module TopoOrder {
  import opened Numbers
  import opened PackageGraph
  import opened Locale
  import opened TopoSort

  // ---------------------------------------------------------------- which package comes first

  /** `i` is the first position of the group in the configured order. */
  predicate FirstAt(order: seq<string>, group: string, i: int) {
    0 <= i < |order| && order[i] == group && group !in order[..i]
  }

  /** Listed groups in their order before all others; within a group by short name, and unlisted groups
      by name. */
  ghost predicate Precedes(o: Order, a: Package, b: Package) {
    || (exists i, j :: FirstAt(o.groupOrder, a.group, i) && FirstAt(o.groupOrder, b.group, j) && i < j)
    || (a.group in o.groupOrder && b.group !in o.groupOrder)
    || (a.group !in o.groupOrder && b.group !in o.groupOrder && (o.locale)(a.group, b.group) < 0)
    || (a.group == b.group && (o.locale)(a.short, b.short) < 0)
  }

  /** Positions in a listing this long are numbers that stay apart from the one for "unlisted". */
  ghost predicate Usable(o: Order) {
    IsCollation(o.locale) && |o.groupOrder| <= MAX_SAFE_INTEGER
  }

  lemma {:induction false} IndexOfIs(s: seq<string>, x: string)
    ensures x in s ==> IndexOf(s, x) >= 0 && FirstAt(s, x, IndexOf(s, x))
    ensures x !in s ==> IndexOf(s, x) == -1
  {
    if s != [] && s[0] != x {
      IndexOfIs(s[1..], x);
      if x in s {
        var i := IndexOf(s[1..], x);
        assert s[..i + 1] == [s[0]] + s[1..][..i];
      }
    }
  }

  lemma FirstOnce(s: seq<string>, x: string, i: int, j: int)
    requires FirstAt(s, x, i) && FirstAt(s, x, j)
    ensures i == j
  {
  }

  lemma RankIs(o: Order, group: string)
    requires Usable(o)
    ensures group in o.groupOrder ==> FirstAt(o.groupOrder, group, Rank(o, group)) && Rank(o, group) < MAX_SAFE_INTEGER
    ensures group !in o.groupOrder ==> Rank(o, group) == MAX_SAFE_INTEGER
  {
    IndexOfIs(o.groupOrder, group);
  }

  lemma RanksApart(o: Order, a: string, b: string)
    requires Usable(o) && Rank(o, a) == Rank(o, b) && a in o.groupOrder
    ensures a == b
  {
    RankIs(o, a);
    RankIs(o, b);
  }

  /** `comparePackages` is that order. */
  lemma BeforeIff(o: Order, a: Package, b: Package)
    requires Usable(o)
    ensures Before(o, a, b) <==> Precedes(o, a, b)
  {
    hide FirstAt, Rank;
    RankIs(o, a.group);
    RankIs(o, b.group);
    if a.group in o.groupOrder && b.group in o.groupOrder {
      var i, j := Rank(o, a.group), Rank(o, b.group);
      if k, l :| FirstAt(o.groupOrder, a.group, k) && FirstAt(o.groupOrder, b.group, l) && k < l {
        FirstOnce(o.groupOrder, a.group, i, k);
        FirstOnce(o.groupOrder, b.group, j, l);
      }
      if i == j {
        RanksApart(o, a.group, b.group);
      }
    } else {
      FirstListed(o, a.group);
      FirstListed(o, b.group);
    }
  }

  lemma FirstListed(o: Order, group: string)
    ensures forall i :: FirstAt(o.groupOrder, group, i) ==> group in o.groupOrder
  {
  }

  ghost predicate InOrder(o: Order, s: seq<Package>) {
    forall i, j :: 0 <= i < j < |s| ==> Precedes(o, s[i], s[j])
  }

  lemma InOrderIff(o: Order, s: seq<Package>)
    requires Usable(o)
    ensures InOrder(o, s) <==> Ascending(o, s)
  {
    hide Precedes, Before;
    forall i, j | 0 <= i < j < |s|
      ensures Precedes(o, s[i], s[j]) <==> Before(o, s[i], s[j])
    {
      BeforeIff(o, s[i], s[j]);
    }
  }

  // ---------------------------------------------------------------- round by round

  /** Not placed yet, and every dependency is. */
  predicate Free(g: Graph, placed: set<string>, u: string) {
    u in g && u !in placed && forall d :: d in g[u].deps ==> d in placed
  }

  ghost predicate SomeFree(g: Graph, placed: set<string>) {
    exists u :: Free(g, placed, u)
  }

  /** A cycle of packages still to place that waits for no package outside itself, and the first package
      in order that lies on any such cycle is one of its own. */
  ghost predicate FirstCycle(g: Graph, o: Order, placed: set<string>, block: seq<Package>)
    requires block != []
  {
    var rest := Restrict(g, g.Keys - placed);
    && SinkCycle(rest, Names(block))
    && forall u :: u in rest && InSinkCycle(rest, u) && u != block[0].short ==> Precedes(o, block[0], rest[u])
  }

  /** What one round places: all free packages, or where none is free, the first cycle. */
  ghost predicate Round(g: Graph, o: Order, placed: set<string>, block: seq<Package>) {
    && block != [] && InOrder(o, block)
    && (forall p :: p in block ==> p.short in g && g[p.short] == p && p.short !in placed)
    && if SomeFree(g, placed) then forall u :: u in Names(block) <==> Free(g, placed, u)
       else FirstCycle(g, o, placed, block)
  }

  ghost predicate InRounds(g: Graph, o: Order, placed: set<string>, s: seq<Package>)
    decreases |s|
  {
    if s == [] then g.Keys <= placed
    else
      exists n :: 0 < n <= |s| && Round(g, o, placed, s[..n]) && InRounds(g, o, placed + Names(s[..n]), s[n..])
  }

  lemma ReadyIsFree(g: Graph, o: Order, remaining: set<string>)
    requires Sortable(g, o, remaining)
    ensures forall u :: u in Ready(g, remaining) <==> Free(g, g.Keys - remaining, u)
  {
  }

  lemma BlockNames(g: Graph, o: Order, remaining: set<string>)
    requires Sortable(g, o, remaining) && remaining != {}
    ensures var b := NextBlock(g, o, remaining);
            && Ranked(g, o, b) != [] && Names(Ranked(g, o, b)) == b && Ascending(o, Ranked(g, o, b))
            && forall p :: p in Ranked(g, o, b) ==> p.short in remaining && g[p.short] == p
  {
    RankedNames(g, o, NextBlock(g, o, remaining));
  }

  lemma CycleBlock(g: Graph, o: Order, remaining: set<string>)
    requires Sortable(g, o, remaining) && Usable(o) && remaining != {} && Ready(g, remaining) == {}
    requires Ranked(g, o, NextBlock(g, o, remaining)) != []
    ensures FirstCycle(g, o, g.Keys - remaining, Ranked(g, o, NextBlock(g, o, remaining)))
  {
    hide SinkCycle, Precedes, Ready, Ranked, DepsPresent;
    var c := FirstSinkCycle(g, o, remaining);
    var block := Ranked(g, o, c);
    BlockNames(g, o, remaining);
    assert g.Keys - (g.Keys - remaining) == remaining;
    var rest := Restrict(g, remaining);
    var m :| m in c && Least(o, rest, CycleMembers(rest), m);
    LeastIsFirst(g, o, remaining, c, block, m);
    forall u | u in rest && InSinkCycle(rest, u) && u != m
      ensures Precedes(o, block[0], rest[u])
    {
      assert u in CycleMembers(rest);
      BeforeIff(o, block[0], rest[u]);
    }
  }

  lemma LeastIsFirst(g: Graph, o: Order, remaining: set<string>, c: set<string>, block: seq<Package>, m: string)
    requires IsCollation(o.locale) && Keyed(g) && remaining <= g.Keys
    requires block != [] && Ascending(o, block) && Names(block) == c && SinkCycle(Restrict(g, remaining), c)
    requires forall p :: p in block ==> p.short in remaining && g[p.short] == p
    requires m in c && Least(o, Restrict(g, remaining), CycleMembers(Restrict(g, remaining)), m)
    ensures block[0] == g[m]
  {
    var p :| p in block && p.short == m;
    var k :| 0 <= k < |block| && block[k] == p;
    var f := block[0];
    assert f in block && f.short in c;
    assert InSinkCycle(Restrict(g, remaining), f.short);
    if f.short != m {
      assert Before(o, block[0], block[k]);
      CompareTotal(o, p, f);
    }
  }

  /** The layered order is one of rounds. */
  lemma {:induction false} LayersInRounds(g: Graph, o: Order, remaining: set<string>)
    requires Sortable(g, o, remaining) && Usable(o)
    ensures InRounds(g, o, g.Keys - remaining, Layers(g, o, remaining))
    decreases remaining
  {
    hide DepsPresent, IsCollation, NextBlock, Ranked, Round, Usable, Keyed, Names;
    if remaining != {} {
      var b := NextBlock(g, o, remaining);
      var block, rest := Ranked(g, o, b), Layers(g, o, remaining - b);
      var s := Layers(g, o, remaining);
      BlockNames(g, o, remaining);
      BlockIsRound(g, o, remaining);
      LayersInRounds(g, o, remaining - b);
      assert s[..|block|] == block && s[|block|..] == rest;
      assert g.Keys - remaining + b == g.Keys - (remaining - b);
    }
  }

  lemma BlockIsRound(g: Graph, o: Order, remaining: set<string>)
    requires Sortable(g, o, remaining) && Usable(o) && remaining != {}
    ensures Round(g, o, g.Keys - remaining, Ranked(g, o, NextBlock(g, o, remaining)))
  {
    hide Ready, Ranked, FirstCycle, Free, DepsPresent, IsCollation;
    BlockNames(g, o, remaining);
    ReadyIsFree(g, o, remaining);
    InOrderIff(o, Ranked(g, o, NextBlock(g, o, remaining)));
    if Ready(g, remaining) == {} {
      CycleBlock(g, o, remaining);
    } else {
      var u :| u in Ready(g, remaining);
      assert Free(g, g.Keys - remaining, u);
    }
  }

  // ---------------------------------------------------------------- only one order has these rounds

  lemma SameCycle(g: Graph, o: Order, placed: set<string>, a: seq<Package>, b: seq<Package>)
    requires Keyed(g) && Usable(o) && !SomeFree(g, placed)
    requires Round(g, o, placed, a) && Round(g, o, placed, b)
    ensures Names(a) == Names(b)
  {
    hide SinkCycle, Precedes, IsCollation;
    var rest := Restrict(g, g.Keys - placed);
    assert a[0] in a && b[0] in b;
    assert InSinkCycle(rest, a[0].short) && InSinkCycle(rest, b[0].short);
    if a[0].short != b[0].short {
      BeforeIff(o, a[0], b[0]);
      BeforeIff(o, b[0], a[0]);
      CompareTotal(o, a[0], b[0]);
    }
    SinkIsScc(rest, Names(a));
    SinkIsScc(rest, Names(b));
    SccOfMember(rest, Names(a), a[0].short);
    SccOfMember(rest, Names(b), b[0].short);
  }

  lemma SinkIsScc(g: Graph, c: set<string>)
    requires SinkCycle(g, c)
    ensures IsScc(g, c)
  {
  }

  lemma SameRound(g: Graph, o: Order, placed: set<string>, a: seq<Package>, b: seq<Package>)
    requires Keyed(g) && Usable(o) && Round(g, o, placed, a) && Round(g, o, placed, b)
    ensures a == b
  {
    hide FirstCycle, Free, SomeFree, InOrder, Ascending, IsCollation;
    if !SomeFree(g, placed) {
      SameCycle(g, o, placed, a, b);
    }
    assert Names(a) == Names(b);
    InOrderIff(o, a);
    InOrderIff(o, b);
    SameMembers(g, a, b);
    SameMembers(g, b, a);
    AscendingUnique(o, a, b);
  }

  lemma SameMembers(g: Graph, a: seq<Package>, b: seq<Package>)
    requires Names(a) <= Names(b)
    requires forall p :: p in a || p in b ==> p.short in g && g[p.short] == p
    ensures forall p :: p in a ==> p in b
  {
    forall p | p in a
      ensures p in b
    {
      assert p.short in Names(b);
      var q :| q in b && q.short == p.short;
    }
  }

  lemma {:induction false} RoundsUnique(g: Graph, o: Order, placed: set<string>, s: seq<Package>, t: seq<Package>)
    requires Keyed(g) && Usable(o) && InRounds(g, o, placed, s) && InRounds(g, o, placed, t)
    ensures s == t
    decreases |s|
  {
    hide Round, Usable, Names;
    if s == [] || t == [] {
      NoRoundLeft(g, o, placed, s, t);
    } else {
      var n :| 0 < n <= |s| && Round(g, o, placed, s[..n]) && InRounds(g, o, placed + Names(s[..n]), s[n..]);
      var m :| 0 < m <= |t| && Round(g, o, placed, t[..m]) && InRounds(g, o, placed + Names(t[..m]), t[m..]);
      SameRound(g, o, placed, s[..n], t[..m]);
      RoundsUnique(g, o, placed + Names(s[..n]), s[n..], t[m..]);
      assert s == s[..n] + s[n..] && t == t[..m] + t[m..];
    }
  }

  lemma RoundTakes(g: Graph, o: Order, placed: set<string>, block: seq<Package>)
    requires Round(g, o, placed, block)
    ensures !(g.Keys <= placed)
  {
    assert block[0] in block;
  }

  lemma NoRoundLeft(g: Graph, o: Order, placed: set<string>, s: seq<Package>, t: seq<Package>)
    requires (s == [] || t == []) && InRounds(g, o, placed, s) && InRounds(g, o, placed, t)
    ensures s == t
  {
    hide Round;
    if s != t {
      var u := if s == [] then t else s;
      var n :| 0 < n <= |u| && Round(g, o, placed, u[..n]);
      RoundTakes(g, o, placed, u[..n]);
    }
  }

  /** The result of `topoSort` is the one list in which every round places all packages whose
      dependencies are placed, or else the first cycle, in order. */
  lemma OrderingIff(packages: seq<Package>, o: Order, s: seq<Package>)
    requires Usable(o) && !MissesPeer(packages, ByName(packages))
    ensures s == Ordering(packages, o) <==> InRounds(ByName(packages), o, {}, s)
  {
    hide IsCollation, DepsPresent, Layers, InRounds, MissesPeer, ByName;
    var g := ByName(packages);
    ByNameCloses(packages);
    LayersInRounds(g, o, g.Keys);
    assert g.Keys - g.Keys == {};
    if InRounds(g, o, {}, s) {
      RoundsUnique(g, o, {}, s, Ordering(packages, o));
    }
  }

  // ---------------------------------------------------------------- chains of dependencies

  /** Every chain of dependencies that starts with `u` has at most `n` packages: none runs into a cycle. */
  predicate Within(g: Graph, u: string, n: nat)
    decreases n
  {
    u in g && n > 0 && forall d :: d in g[u].deps ==> Within(g, d, n - 1)
  }

  ghost predicate Stands(s: seq<Package>, a: string, b: string) {
    exists i, j :: 0 <= i < j < |s| && s[i].short == a && s[j].short == b
  }

  lemma {:induction false} WithinGrows(g: Graph, u: string, n: nat, m: nat)
    requires Within(g, u, n) && n <= m
    ensures Within(g, u, m)
    decreases m
  {
    forall d | d in g[u].deps
      ensures Within(g, d, m - 1)
    {
      WithinGrows(g, d, n - 1, m - 1);
    }
  }

  ghost function Shallow(g: Graph, n: nat): set<string> {
    set u | u in g && Within(g, u, n)
  }

  lemma FreeIsNext(g: Graph, n: nat, u: string)
    ensures Free(g, Shallow(g, n), u) <==> Within(g, u, n + 1) && !Within(g, u, n)
  {
    if Within(g, u, n + 1) {
      forall d | d in g[u].deps
        ensures d in Shallow(g, n)
      {
        assert Within(g, d, n);
      }
    }
  }

  /** While some package of bounded depth is left, the next depth has one. */
  lemma {:induction false} SomeNext(g: Graph, n: nat, u: string, m: nat)
    requires Within(g, u, m) && !Within(g, u, n)
    ensures exists v :: Within(g, v, n + 1) && !Within(g, v, n)
    decreases m
  {
    if !Within(g, u, n + 1) {
      var d :| d in g[u].deps && !Within(g, d, n);
      SomeNext(g, n, d, m - 1);
    }
  }

  /** The longest chains of dependencies that start with the two packages are equally long. */
  ghost predicate AsDeep(g: Graph, a: string, b: string) {
    forall m: nat :: Within(g, a, m) <==> Within(g, b, m)
  }

  lemma DepthGrows(g: Graph, k: nat)
    ensures Shallow(g, k) <= Shallow(g, k + 1)
  {
    forall u | Within(g, u, k)
      ensures Within(g, u, k + 1)
    {
      WithinGrows(g, u, k, k + 1);
    }
  }

  /** A package still to place is in the rest of the order. */
  lemma {:induction false} LeftIsPlaced(g: Graph, o: Order, placed: set<string>, s: seq<Package>, u: string)
    requires InRounds(g, o, placed, s) && u in g && u !in placed
    ensures u in Names(s)
    decreases |s|
  {
    hide Round;
    var n :| 0 < n <= |s| && Round(g, o, placed, s[..n]) && InRounds(g, o, placed + Names(s[..n]), s[n..]);
    assert s == s[..n] + s[n..];
    if u !in Names(s[..n]) {
      LeftIsPlaced(g, o, placed + Names(s[..n]), s[n..], u);
    }
  }

  lemma StandsAcross(front: seq<Package>, rest: seq<Package>, a: string, b: string)
    requires a in Names(front) && (b in Names(rest) || Stands(front, a, b))
    ensures Stands(front + rest, a, b)
  {
    if Stands(front, a, b) {
      var i, j :| 0 <= i < j < |front| && front[i].short == a && front[j].short == b;
      assert (front + rest)[i].short == a && (front + rest)[j].short == b;
    } else {
      var i :| 0 <= i < |front| && front[i].short == a;
      var j :| 0 <= j < |rest| && rest[j].short == b;
      assert (front + rest)[i].short == a && (front + rest)[|front| + j].short == b;
    }
  }

  lemma StandsLater(front: seq<Package>, rest: seq<Package>, a: string, b: string)
    requires Stands(rest, a, b)
    ensures Stands(front + rest, a, b)
  {
    var i, j :| 0 <= i < j < |rest| && rest[i].short == a && rest[j].short == b;
    assert (front + rest)[|front| + i].short == a && (front + rest)[|front| + j].short == b;
  }

  /** A round over everything up to some depth places the packages of the next depth. */
  lemma NextDepth(g: Graph, o: Order, k: nat, block: seq<Package>, a: string, n: nat)
    requires Round(g, o, Shallow(g, k), block) && Within(g, a, n) && !Within(g, a, k)
    ensures forall u :: u in Names(block) <==> Within(g, u, k + 1) && !Within(g, u, k)
    ensures Shallow(g, k) + Names(block) == Shallow(g, k + 1)
  {
    hide Within, Free, InOrder, FirstCycle, Names;
    SomeNext(g, k, a, n);
    var v :| Within(g, v, k + 1) && !Within(g, v, k);
    FreeIsNext(g, k, v);
    forall u
      ensures u in Names(block) <==> Within(g, u, k + 1) && !Within(g, u, k)
    {
      FreeIsNext(g, k, u);
    }
    DepthGrows(g, k);
    InGraph(g, k + 1);
  }

  lemma InGraph(g: Graph, n: nat)
    ensures forall u :: Within(g, u, n) ==> u in g
  {
  }

  lemma OrderedPair(o: Order, s: seq<Package>, i: nat, j: nat)
    requires InOrder(o, s) && i < |s| && j < |s|
    ensures i < j ==> Precedes(o, s[i], s[j])
  {
  }

  lemma InsideRound(g: Graph, o: Order, placed: set<string>, block: seq<Package>, a: string, b: string)
    requires Round(g, o, placed, block) && a in Names(block) && b in Names(block) && a != b
    requires a in g && b in g && !Precedes(o, g[b], g[a])
    ensures Stands(block, a, b)
  {
    hide Precedes, FirstCycle, Free;
    var i :| 0 <= i < |block| && block[i].short == a;
    var j :| 0 <= j < |block| && block[j].short == b;
    assert block[i] in block && block[j] in block;
    OrderedPair(o, block, j, i);
  }

  /** Which of two packages comes first: the one whose chains of dependencies are shorter, and of two
      with equally long ones the one that precedes. */
  ghost predicate Earlier(g: Graph, o: Order, a: string, b: string, n: nat) {
    && a in g && b in g && a != b && Within(g, a, n)
    && (!Within(g, b, n) || (AsDeep(g, a, b) && !Precedes(o, g[b], g[a])))
  }

  lemma NotDeeper(g: Graph, o: Order, a: string, b: string, n: nat, k: nat)
    requires Earlier(g, o, a, b, n) && !Within(g, a, k) && Within(g, b, k + 1)
    ensures Within(g, a, k + 1) && !Precedes(o, g[b], g[a])
  {
    if n <= k {
      WithinGrows(g, a, n, k);
    }
    WithinGrows(g, b, k + 1, n);
  }

  lemma {:induction false} RoundsByDepth(g: Graph, o: Order, k: nat, s: seq<Package>, a: string, b: string, n: nat)
    requires InRounds(g, o, Shallow(g, k), s) && Earlier(g, o, a, b, n)
    requires !Within(g, a, k) && !Within(g, b, k)
    ensures Stands(s, a, b)
    decreases |s|
  {
    hide Precedes, Within, Round, Names, Stands;
    LeftIsPlaced(g, o, Shallow(g, k), s, a);
    NoNames();
    var i :| 0 < i <= |s| && Round(g, o, Shallow(g, k), s[..i])
      && InRounds(g, o, Shallow(g, k) + Names(s[..i]), s[i..]);
    NextDepth(g, o, k, s[..i], a, n);
    assert s == s[..i] + s[i..];
    if Within(g, b, k + 1) {
      NotDeeper(g, o, a, b, n, k);
      InsideRound(g, o, Shallow(g, k), s[..i], a, b);
      StandsAcross(s[..i], s[i..], a, b);
    } else if Within(g, a, k + 1) {
      LeftIsPlaced(g, o, Shallow(g, k + 1), s[i..], b);
      StandsAcross(s[..i], s[i..], a, b);
    } else {
      RoundsByDepth(g, o, k + 1, s[i..], a, b, n);
      StandsLater(s[..i], s[i..], a, b);
    }
  }

  lemma NoNames()
    ensures Names([]) == {}
  {
  }

  /** Packages whose dependencies run into no cycle stand before all others, in layers by the length of
      their longest chain of dependencies, and within a layer in the order of groups and names. */
  lemma OrderingByDepth(packages: seq<Package>, o: Order, a: Package, b: Package, n: nat)
    requires Usable(o) && DistinctNames(packages) && !MissesPeer(packages, ByName(packages))
    requires a in packages && b in packages && Within(ByName(packages), a.short, n)
    ensures !Within(ByName(packages), b.short, n) ==> Stands(Ordering(packages, o), a.short, b.short)
    ensures AsDeep(ByName(packages), a.short, b.short) && Precedes(o, a, b) ==>
        Stands(Ordering(packages, o), a.short, b.short)
  {
    hide Precedes, Within, InRounds, Stands, MissesPeer;
    var g, s := ByName(packages), Ordering(packages, o);
    OrderingIff(packages, o, s);
    ByNameHolds(packages, a);
    ByNameHolds(packages, b);
    NothingShallow(g);
    if Precedes(o, a, b) {
      PrecedesOneWay(o, a, b);
    }
    if a.short != b.short && Earlier(g, o, a.short, b.short, n) {
      RoundsByDepth(g, o, 0, s, a.short, b.short, n);
    }
  }

  lemma NothingShallow(g: Graph)
    ensures Shallow(g, 0) == {} && forall u :: !Within(g, u, 0)
  {
  }

  lemma PrecedesOneWay(o: Order, a: Package, b: Package)
    requires Usable(o) && Precedes(o, a, b)
    ensures !Precedes(o, b, a) && a != b
  {
    BeforeIff(o, a, b);
    BeforeIff(o, b, a);
    CompareTotal(o, a, b);
  }

  /** Of two packages without dependencies the one that precedes stands first. */
  lemma LeavesInOrder(packages: seq<Package>, o: Order, a: Package, b: Package)
    requires Usable(o) && DistinctNames(packages) && !MissesPeer(packages, ByName(packages))
    requires a in packages && b in packages && a.deps == [] && b.deps == [] && Precedes(o, a, b)
    ensures Stands(Ordering(packages, o), a.short, b.short)
  {
    hide Precedes, Stands, MissesPeer;
    ByNameHolds(packages, a);
    ByNameHolds(packages, b);
    OrderingByDepth(packages, o, a, b, 1);
  }

  /** A cyclic component stands together, in the order of groups and names. */
  lemma OrderingKeepsCycles(packages: seq<Package>, o: Order, c: set<string>) returns (i: nat)
    requires Usable(o) && !MissesPeer(packages, ByName(packages))
    requires IsScc(ByName(packages), c) && HasCycle(ByName(packages), c)
    ensures var s := Ordering(packages, o);
            i + |c| <= |s| && Names(s[i..i + |c|]) == c && InOrder(o, s[i..i + |c|])
  {
    hide HasCycle, DepsPresent, Layers, InOrder, Ascending, MissesPeer;
    var g := ByName(packages);
    ByNameCloses(packages);
    i := LayersKeepCycles(g, o, g.Keys, c);
    InOrderIff(o, Ordering(packages, o)[i..i + |c|]);
  }
}
