/** `rewriteMarkdown` of `scripts/project-doc-site.ts` from the parsed tree to the spliced text: the
    destinations it collects, and when they neither overlap nor start together. */
module RewrittenLinks {
  import opened Options
  import opened MarkdownSplice
  import Destinations = MarkdownDestinations
  import SpliceOrder

  /** A parsed node with its source offsets; `link` says how its destination is written, if it is a
      link, an image or a definition. */
  datatype Tree = Tree(start: nat, end: nat, link: Option<Destinations.Kind>, children: seq<Tree>)

  function Raw(source: string, t: Tree): string
    requires t.start <= t.end <= |source|
  {
    source[t.start..t.end]
  }

  /** Where a node's children end at the latest: a link's children make up its label. */
  function Limit(source: string, t: Tree): nat
    requires t.start <= t.end <= |source|
  {
    if t.link.None? then t.end else t.start + Destinations.LabelEnd(Raw(source, t))
  }

  /** Offsets as a parser gives them: children inside their parent, siblings one after the other. */
  predicate WellPlaced(source: string, t: Tree)
    decreases t
  {
    && t.start <= t.end <= |source|
    && (forall c :: c in t.children ==> WellPlaced(source, c) && t.start <= c.start && c.end <= t.end)
    && (forall i, j :: 0 <= i < j < |t.children| ==> t.children[i].end <= t.children[j].start)
  }

  /** The label scanner ends no link's label before the last of its children. */
  predicate LabelsHold(source: string, t: Tree)
    requires WellPlaced(source, t)
    decreases t
  {
    forall c :: c in t.children ==> c.end <= Limit(source, t) && LabelsHold(source, c)
  }

  datatype Outcome = Collected(replacements: seq<Replacement>) | Failed(error: Destinations.Result)

  /** What `rewrite` collects for one node; `url` is the new destination of a node, if it gets one. */
  function Own(source: string, t: Tree, url: Tree -> Option<string>): Outcome
    requires t.start <= t.end <= |source|
  {
    if t.link.None? || url(t).None? then Collected([])
    else
      match Destinations.DestinationRange(Raw(source, t), t.link.value)
      case Range(start, end) => Collected([Replacement(t.start + start, t.start + end, url(t).value)])
      case error => Failed(error)
  }

  /** The replacements of a node and of all below it, the node's own first. */
  function Visit(source: string, t: Tree, url: Tree -> Option<string>): Outcome
    requires WellPlaced(source, t)
    decreases t, |t.children| + 1
  {
    var own := Own(source, t, url);
    if own.Failed? then own
    else
      var below := VisitFirst(source, t, |t.children|, url);
      if below.Failed? then below else Collected(own.replacements + below.replacements)
  }

  function VisitFirst(source: string, t: Tree, n: nat, url: Tree -> Option<string>): Outcome
    requires WellPlaced(source, t) && n <= |t.children|
    decreases t, n
  {
    if n == 0 then Collected([])
    else
      var before := VisitFirst(source, t, n - 1, url);
      if before.Failed? then before
      else
        var last := Visit(source, t.children[n - 1], url);
        if last.Failed? then last else Collected(before.replacements + last.replacements)
  }

  // ---------------------------------------------------------------- which nodes are rewritten

  /** The nodes of a tree, each before those below it, and siblings in order. */
  function Nodes(t: Tree): seq<Tree>
    decreases t, |t.children| + 1
  {
    [t] + NodesBelow(t, |t.children|)
  }

  function NodesBelow(t: Tree, n: nat): seq<Tree>
    requires n <= |t.children|
    decreases t, n
  {
    if n == 0 then [] else NodesBelow(t, n - 1) + Nodes(t.children[n - 1])
  }

  /** A link, an image or a definition with a new destination. */
  predicate Rewritable(t: Tree, url: Tree -> Option<string>) {
    t.link.Some? && url(t).Some?
  }

  predicate InSource(source: string, t: Tree) {
    t.start <= t.end <= |source|
  }

  /** `r` puts the node's new destination in place of the one its text has. */
  predicate Replaces(source: string, t: Tree, url: Tree -> Option<string>, r: Replacement) {
    && Rewritable(t, url) && InSource(source, t)
    && var range := Destinations.DestinationRange(source[t.start..t.end], t.link.value);
       && range.Range?
       && r == Replacement(t.start + range.start, t.start + range.end, url(t).value)
  }

  /** One replacement for each rewritable node and none besides, in the order of the nodes: the `i`-th
      is that of node `at[i]`. */
  ghost predicate Collects(source: string, nodes: seq<Tree>, url: Tree -> Option<string>, rs: seq<Replacement>,
          at: seq<nat>)
  {
    && |rs| == |at|
    && (forall i :: 0 <= i < |at| ==> at[i] < |nodes| && Replaces(source, nodes[at[i]], url, rs[i]))
    && (forall i, j :: 0 <= i < j < |at| ==> at[i] < at[j])
    && (forall k :: 0 <= k < |nodes| && Rewritable(nodes[k], url) ==> k in at)
  }

  /** The first rewritable node whose destination is not found is at `k`. */
  predicate Unlocatable(source: string, nodes: seq<Tree>, url: Tree -> Option<string>, k: nat,
          error: Destinations.Result)
  {
    && k < |nodes| && Rewritable(nodes[k], url) && InSource(source, nodes[k]) && !error.Range?
    && error == Destinations.DestinationRange(source[nodes[k].start..nodes[k].end], nodes[k].link.value)
    && forall i :: 0 <= i < k && Rewritable(nodes[i], url) ==>
      && InSource(source, nodes[i])
      && Destinations.DestinationRange(source[nodes[i].start..nodes[i].end], nodes[i].link.value).Range?
  }

  ghost predicate CollectsAll(source: string, nodes: seq<Tree>, url: Tree -> Option<string>, o: Outcome) {
    match o
    case Collected(rs) => exists at :: Collects(source, nodes, url, rs, at)
    case Failed(e) => exists k :: Unlocatable(source, nodes, url, k, e)
  }

  function Shifted(at: seq<nat>, n: nat): seq<nat> {
    seq(|at|, i requires 0 <= i < |at| => at[i] + n)
  }

  lemma BothReplace(source: string, a: seq<Tree>, b: seq<Tree>, url: Tree -> Option<string>, rs: seq<Replacement>,
          qs: seq<Replacement>, at: seq<nat>, bt: seq<nat>, i: nat)
    requires Collects(source, a, url, rs, at) && Collects(source, b, url, qs, bt) && i < |at| + |bt|
    ensures var all := at + Shifted(bt, |a|);
            all[i] < |a + b| && Replaces(source, (a + b)[all[i]], url, (rs + qs)[i])
  {
    hide Replaces, Rewritable;
    var all := at + Shifted(bt, |a|);
    if i < |at| {
      assert all[i] == at[i] && (a + b)[at[i]] == a[at[i]] && (rs + qs)[i] == rs[i];
    } else {
      var k := i - |at|;
      assert all[i] == bt[k] + |a| && (a + b)[bt[k] + |a|] == b[bt[k]] && (rs + qs)[i] == qs[k];
    }
  }

  lemma BothAscend(a: nat, at: seq<nat>, bt: seq<nat>, i: nat, j: nat)
    requires forall k :: 0 <= k < |at| ==> at[k] < a
    requires forall k, l :: 0 <= k < l < |at| ==> at[k] < at[l]
    requires forall k, l :: 0 <= k < l < |bt| ==> bt[k] < bt[l]
    requires i < j < |at| + |bt|
    ensures (at + Shifted(bt, a))[i] < (at + Shifted(bt, a))[j]
  {
  }

  lemma BothCover(a: nat, at: seq<nat>, bt: seq<nat>, k: nat)
    requires k in at || (k >= a && k - a in bt)
    ensures k in at + Shifted(bt, a)
  {
    if k !in at {
      var i :| 0 <= i < |bt| && bt[i] == k - a;
      assert Shifted(bt, a)[i] == k;
    }
  }

  lemma CollectsBoth(source: string, a: seq<Tree>, b: seq<Tree>, url: Tree -> Option<string>, rs: seq<Replacement>,
          qs: seq<Replacement>, at: seq<nat>, bt: seq<nat>)
    requires Collects(source, a, url, rs, at) && Collects(source, b, url, qs, bt)
    ensures Collects(source, a + b, url, rs + qs, at + Shifted(bt, |a|))
  {
    hide Replaces, Rewritable, Shifted;
    var all := at + Shifted(bt, |a|);
    SameLength(bt, |a|);
    forall i | 0 <= i < |all|
      ensures all[i] < |a + b| && Replaces(source, (a + b)[all[i]], url, (rs + qs)[i])
    {
      BothReplace(source, a, b, url, rs, qs, at, bt, i);
    }
    forall i, j | 0 <= i < j < |all|
      ensures all[i] < all[j]
    {
      BothAscend(|a|, at, bt, i, j);
    }
    forall k | 0 <= k < |a + b| && Rewritable((a + b)[k], url)
      ensures k in all
    {
      assert (a + b)[k] == if k < |a| then a[k] else b[k - |a|];
      BothCover(|a|, at, bt, k);
    }
  }

  lemma SameLength(at: seq<nat>, n: nat)
    ensures |Shifted(at, n)| == |at|
  {
  }

  /** A failure stays the first one, and one behind what is collected is the first. */
  lemma FailsLater(source: string, a: seq<Tree>, b: seq<Tree>, url: Tree -> Option<string>, rs: seq<Replacement>,
          at: seq<nat>, k: nat, e: Destinations.Result)
    requires Collects(source, a, url, rs, at) && Unlocatable(source, b, url, k, e)
    ensures Unlocatable(source, a + b, url, |a| + k, e)
  {
    hide Destinations.DestinationRange;
    forall i | 0 <= i < |a| && Rewritable(a[i], url)
      ensures InSource(source, a[i])
      ensures Destinations.DestinationRange(source[a[i].start..a[i].end], a[i].link.value).Range?
    {
      var x :| 0 <= x < |at| && at[x] == i;
      assert Replaces(source, a[i], url, rs[x]);
    }
  }

  lemma FailsEarly(source: string, a: seq<Tree>, b: seq<Tree>, url: Tree -> Option<string>, k: nat,
          e: Destinations.Result)
    requires Unlocatable(source, a, url, k, e)
    ensures Unlocatable(source, a + b, url, k, e)
  {
    hide Destinations.DestinationRange;
  }

  lemma OwnCollects(source: string, t: Tree, url: Tree -> Option<string>)
    requires InSource(source, t)
    ensures CollectsAll(source, [t], url, Own(source, t, url))
  {
    hide Destinations.DestinationRange;
    var own := Own(source, t, url);
    if own.Failed? {
      assert Unlocatable(source, [t], url, 0, own.error);
    } else if Rewritable(t, url) {
      assert Collects(source, [t], url, own.replacements, [0]);
    } else {
      assert Collects(source, [t], url, own.replacements, []);
    }
  }

  /** Visiting collects from every rewritable node of the tree, once and in order, and from no other. */
  lemma {:induction false} VisitCollects(source: string, t: Tree, url: Tree -> Option<string>)
    requires WellPlaced(source, t)
    ensures CollectsAll(source, Nodes(t), url, Visit(source, t, url))
    decreases t, |t.children| + 1
  {
    hide Collects, Unlocatable, Own;
    OwnCollects(source, t, url);
    FirstCollects(source, t, |t.children|, url);
    var own, below := Own(source, t, url), VisitFirst(source, t, |t.children|, url);
    Joined(source, [t], NodesBelow(t, |t.children|), url, own, below, Visit(source, t, url));
  }

  lemma {:induction false} FirstCollects(source: string, t: Tree, n: nat, url: Tree -> Option<string>)
    requires WellPlaced(source, t) && n <= |t.children|
    ensures CollectsAll(source, NodesBelow(t, n), url, VisitFirst(source, t, n, url))
    decreases t, n
  {
    hide Unlocatable, Own, WellPlaced;
    if n == 0 {
      assert Collects(source, [], url, [], []);
    } else {
      hide Collects;
      ChildPlaced(source, t, n - 1);
      FirstCollects(source, t, n - 1, url);
      VisitCollects(source, t.children[n - 1], url);
      Joined(source, NodesBelow(t, n - 1), Nodes(t.children[n - 1]), url, VisitFirst(source, t, n - 1, url),
             Visit(source, t.children[n - 1], url), VisitFirst(source, t, n, url));
    }
  }

  lemma Joined(source: string, a: seq<Tree>, b: seq<Tree>, url: Tree -> Option<string>, p: Outcome, q: Outcome,
          both: Outcome)
    requires CollectsAll(source, a, url, p) && CollectsAll(source, b, url, q)
    requires both == if p.Failed? then p else if q.Failed? then q else Collected(p.replacements + q.replacements)
    ensures CollectsAll(source, a + b, url, both)
  {
    hide Collects, Unlocatable;
    if p.Failed? {
      var k :| Unlocatable(source, a, url, k, p.error);
      FailsEarly(source, a, b, url, k, p.error);
    } else {
      var at :| Collects(source, a, url, p.replacements, at);
      if q.Failed? {
        var k :| Unlocatable(source, b, url, k, q.error);
        FailsLater(source, a, b, url, p.replacements, at, k, q.error);
      } else {
        var bt :| Collects(source, b, url, q.replacements, bt);
        CollectsBoth(source, a, b, url, p.replacements, q.replacements, at, bt);
      }
    }
  }

  // ---------------------------------------------------------------- where destinations lie

  /** A destination stands behind the label and the character after it. */
  lemma BehindLabel(s: string, kind: Destinations.Kind)
    requires Destinations.DestinationRange(s, kind).Range?
    ensures var r := Destinations.DestinationRange(s, kind); Destinations.LabelEnd(s) + 2 <= r.start <= r.end <= |s|
  {
    Destinations.RangeInside(s, kind);
  }

  /** Strictly behind the start of a stretch of text, and ending within it. */
  ghost predicate Within(rs: seq<Replacement>, start: nat, end: nat) {
    forall r :: r in rs ==> start < r.start <= r.end <= end
  }

  ghost predicate AllApart(rs: seq<Replacement>) {
    forall i, j :: 0 <= i < j < |rs| ==> Apart(rs[i], rs[j])
  }

  lemma JoinApart(a: seq<Replacement>, b: seq<Replacement>, start: nat, gap: nat, end: nat)
    requires AllApart(a) && AllApart(b) && Within(a, start, gap) && Within(b, gap, end) && start <= gap <= end
    ensures AllApart(a + b) && Within(a + b, start, end)
    ensures AllApart(b + a) && Within(b + a, start, end)
  {
    forall i, j | 0 <= i < |a| && 0 <= j < |b|
      ensures Apart(a[i], b[j]) && Apart(b[j], a[i])
    {
      assert a[i] in a && b[j] in b;
    }
  }

  /** Destinations of nodes side by side, and of a link and what its label holds, are apart. */
  lemma {:induction false} DestinationsApart(source: string, t: Tree, url: Tree -> Option<string>)
    requires WellPlaced(source, t) && LabelsHold(source, t) && Visit(source, t, url).Collected?
    ensures AllApart(Visit(source, t, url).replacements) && Within(Visit(source, t, url).replacements, t.start, t.end)
    decreases t, |t.children| + 1
  {
    var own, limit := Own(source, t, url).replacements, Limit(source, t);
    var below := VisitFirst(source, t, |t.children|, url).replacements;
    FirstApart(source, t, |t.children|, url);
    OwnBehind(source, t, url);
    if below == [] {
      assert own + below == own;
    } else {
      JoinApart(below, own, t.start, limit, t.end);
    }
  }

  lemma OwnBehind(source: string, t: Tree, url: Tree -> Option<string>)
    requires t.start <= t.end <= |source| && Own(source, t, url).Collected?
    ensures Limit(source, t) <= t.end
    ensures AllApart(Own(source, t, url).replacements)
    ensures Within(Own(source, t, url).replacements, Limit(source, t), t.end)
  {
    if t.link.Some? && url(t).Some? {
      BehindLabel(Raw(source, t), t.link.value);
    }
  }

  lemma {:induction false} FirstApart(source: string, t: Tree, n: nat, url: Tree -> Option<string>)
    requires WellPlaced(source, t) && LabelsHold(source, t)
    requires n <= |t.children| && VisitFirst(source, t, n, url).Collected?
    ensures AllApart(VisitFirst(source, t, n, url).replacements)
    ensures Within(VisitFirst(source, t, n, url).replacements, t.start,
                   if n == 0 then t.start else t.children[n - 1].end)
    decreases t, n
  {
    if n > 0 {
      var c := t.children[n - 1];
      assert c in t.children;
      FirstApart(source, t, n - 1, url);
      DestinationsApart(source, c, url);
      var before := VisitFirst(source, t, n - 1, url).replacements;
      assert Within(before, t.start, c.start);
      JoinApart(before, Visit(source, c, url).replacements, t.start, c.start, c.end);
    }
  }

  /** For every tree whose labels hold their children the rewritten text is the simultaneous substitution of the new
      destinations, and the order in which they were collected does not show. */
  lemma RewriteSubstitutes(source: string, t: Tree, url: Tree -> Option<string>)
    requires WellPlaced(source, t) && LabelsHold(source, t) && Visit(source, t, url).Collected?
    ensures var rs := Visit(source, t, url).replacements;
            && PairwiseApart(source, rs)
            && Splice(source, rs) == Substituted(source, rs, 0)
            && forall other :: multiset(other) == multiset(rs) ==> Splice(source, other) == Splice(source, rs)
  {
    var rs := Visit(source, t, url).replacements;
    DestinationsApart(source, t, url);
    SpliceIsSubstitution(source, rs);
    forall other | multiset(other) == multiset(rs)
      ensures Splice(source, other) == Splice(source, rs)
    {
      SpliceOrder.ApartIsOrderFree(source, rs, other);
    }
  }

  // ---------------------------------------------------------------- a label that ends too early

  const CODE_IN_LABEL: string := "[`](`![i](j)](x)"

  /** A link whose label is the code span `](` and an image. */
  const LINK_WITH_CODE: Tree := Tree(0, 16, Some(Destinations.Inline), [IMAGE_IN_LABEL])

  const IMAGE_IN_LABEL: Tree := Tree(5, 12, Some(Destinations.Inline), [])

  lemma ImageRange()
    ensures Destinations.DestinationRange("![i](j)", Destinations.Inline) == Destinations.Range(5, 6)
  {
    assert Destinations.LabelEnd("![i](j)") == 3;
  }

  lemma CodeLabel()
    ensures Destinations.LabelEnd(CODE_IN_LABEL) == 2
  {
  }

  lemma CodeTail()
    ensures Destinations.BareScan(CODE_IN_LABEL, 10, 1) == 16
  {
  }

  lemma CodeRange()
    ensures Destinations.DestinationRange(CODE_IN_LABEL, Destinations.Inline) == Destinations.Range(4, 16)
  {
    hide Destinations.LabelEnd;
    CodeLabel();
    assert Destinations.SkipSpace(CODE_IN_LABEL, 4) == 4;
    assert Destinations.BareScan(CODE_IN_LABEL, 4, 0) == Destinations.BareScan(CODE_IN_LABEL, 9, 0);
    CodeTail();
  }

  /** The scanner takes the code span's bracket for the end of the label, and the link's destination then
      covers the image's. */
  lemma CodeSpanMisleads(url: Tree -> Option<string>)
    ensures WellPlaced(CODE_IN_LABEL, LINK_WITH_CODE) && !LabelsHold(CODE_IN_LABEL, LINK_WITH_CODE)
    ensures url(LINK_WITH_CODE).Some? && url(IMAGE_IN_LABEL).Some? ==>
      var rs := [Replacement(4, 16, url(LINK_WITH_CODE).value), Replacement(10, 11, url(IMAGE_IN_LABEL).value)];
      Visit(CODE_IN_LABEL, LINK_WITH_CODE, url) == Collected(rs) && !AllApart(rs)
  {
    hide Destinations.DestinationRange, Destinations.LabelEnd;
    var source, link, image := CODE_IN_LABEL, LINK_WITH_CODE, IMAGE_IN_LABEL;
    CodeLabel();
    CodeRange();
    ImageRange();
    assert Raw(source, link) == source;
    assert source == "[`](`" + "![i](j)" + "](x)";
    assert Raw(source, image) == "![i](j)";
    assert image in link.children && Limit(source, link) == 2;
    if url(link).Some? && url(image).Some? {
      assert Visit(source, image, url).replacements == [Replacement(10, 11, url(image).value)];
      assert VisitFirst(source, link, 1, url) == Visit(source, image, url);
      var rs := Visit(source, link, url).replacements;
      assert !Apart(rs[0], rs[1]);
    }
  }

  // ---------------------------------------------------------------- the traversal

  lemma NodePlaced(source: string, t: Tree)
    requires WellPlaced(source, t)
    ensures t.start <= t.end <= |source|
  {
  }

  lemma ChildPlaced(source: string, t: Tree, i: nat)
    requires WellPlaced(source, t) && i < |t.children|
    ensures WellPlaced(source, t.children[i]) && t.children[i] in t.children
  {
  }

  /** The list that `rewriteMarkdown` fills while it visits the tree. */
  class Rewriter {
    const source: string
    const url: Tree -> Option<string>
    var replacements: seq<Replacement>

    constructor (source: string, url: Tree -> Option<string>)
      ensures this.source == source && this.url == url && replacements == []
    {
      this.source, this.url := source, url;
      replacements := [];
    }

    method RewriteNode(t: Tree) returns (error: Option<Destinations.Result>)
      requires t.start <= t.end <= |source|
      modifies this
      ensures match Own(source, t, url)
              case Collected(own) => error == None && replacements == old(replacements) + own
              case Failed(e) => error == Some(e)
    {
      if t.link.None? || url(t).None? {
        return None;
      }
      hide Destinations.DestinationRange;
      var range := Destinations.FindDestination(source[t.start..t.end], t.link.value);
      if !range.Range? {
        return Some(range);
      }
      replacements := replacements + [Replacement(t.start + range.start, t.start + range.end, url(t).value)];
      error := None;
    }

    method VisitNode(t: Tree) returns (error: Option<Destinations.Result>)
      requires WellPlaced(source, t)
      modifies this
      ensures match Visit(source, t, url)
              case Collected(all) => error == None && replacements == old(replacements) + all
              case Failed(e) => error == Some(e)
      decreases t
    {
      hide Own, WellPlaced;
      NodePlaced(source, t);
      error := RewriteNode(t);
      if error.Some? {
        return;
      }
      ghost var own := Own(source, t, url).replacements;
      for i := 0 to |t.children|
        invariant error == None && VisitFirst(source, t, i, url).Collected?
        invariant replacements == old(replacements) + own + VisitFirst(source, t, i, url).replacements
      {
        ChildPlaced(source, t, i);
        error := VisitNode(t.children[i]);
        if error.Some? {
          VisitFails(source, t, i + 1, |t.children|, url);
          return;
        }
      }
    }
  }

  lemma {:induction false} VisitFails(source: string, t: Tree, m: nat, n: nat, url: Tree -> Option<string>)
    requires WellPlaced(source, t) && m <= n <= |t.children| && VisitFirst(source, t, m, url).Failed?
    ensures VisitFirst(source, t, n, url) == VisitFirst(source, t, m, url)
    decreases n
  {
    hide WellPlaced, Own, Visit;
    if m < n {
      VisitFails(source, t, m, n - 1, url);
    }
  }

  datatype Rewritten = Text(text: string) | Unlocated(error: Destinations.Result)

  /** Every rewritable node has its destination replaced, and nothing else is; or the first destination
      that is not found is reported. */
  ghost predicate RewritesAll(source: string, t: Tree, url: Tree -> Option<string>, r: Rewritten)
    requires WellPlaced(source, t)
  {
    match r
    case Text(text) => exists rs, at :: Collects(source, Nodes(t), url, rs, at) && IsRewritten(source, t, rs, text)
    case Unlocated(e) => exists k :: Unlocatable(source, Nodes(t), url, k, e)
  }

  ghost predicate IsRewritten(source: string, t: Tree, rs: seq<Replacement>, text: string)
    requires WellPlaced(source, t)
  {
    text == Splice(source, rs) && (LabelsHold(source, t) ==> text == Substituted(source, rs, 0))
  }

  method RewriteMarkdown(source: string, t: Tree, url: Tree -> Option<string>) returns (r: Rewritten)
    requires WellPlaced(source, t)
    ensures match Visit(source, t, url)
            case Collected(rs) =>
              && r == Text(Splice(source, rs))
              && (LabelsHold(source, t) ==> r == Text(Substituted(source, rs, 0)))
            case Failed(e) => r == Unlocated(e)
    ensures RewritesAll(source, t, url, r)
  {
    VisitCollects(source, t, url);
    hide Collects, Unlocatable, Nodes;
    var rewriter := new Rewriter(source, url);
    var error := rewriter.VisitNode(t);
    if error.Some? {
      return Unlocated(error.value);
    }
    assert rewriter.replacements == Visit(source, t, url).replacements;
    if LabelsHold(source, t) {
      RewriteSubstitutes(source, t, url);
    }
    var projected := RewriteSplice(source, rewriter.replacements);
    r := Text(projected);
  }
}
