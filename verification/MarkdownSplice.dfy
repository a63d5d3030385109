/** The replacement splice of `rewriteMarkdown` in `scripts/project-doc-site.ts`. */
module MarkdownSplice {
  import Counting
  import StableSort

  /** Put `value` in place of the source text from `start` to `end`. */
  datatype Replacement = Replacement(start: nat, end: nat, value: string)

  predicate InText(source: string, r: Replacement) {
    r.start <= r.end <= |source|
  }

  /** Disjoint, where an empty range at the start of another one counts as overlapping it. */
  predicate Apart(a: Replacement, b: Replacement) {
    (a.end <= b.start && a.start < b.start) || (b.end <= a.start && b.start < a.start)
  }

  ghost predicate PairwiseApart(source: string, rs: seq<Replacement>) {
    && (forall r :: r in rs ==> InText(source, r))
    && (forall i, j :: 0 <= i < j < |rs| ==> Apart(rs[i], rs[j]))
  }

  // ---------------------------------------------------------------- simultaneous substitution

  predicate StartsAt(rs: seq<Replacement>, i: nat) {
    exists r :: r in rs && r.start == i
  }

  function ReplacementAt(rs: seq<Replacement>, i: nat): (r: Replacement)
    requires StartsAt(rs, i)
    ensures r in rs && r.start == i
  {
    if rs[0].start == i then rs[0] else
      assert StartsAt(rs[1..], i) by {
        var r :| r in rs && r.start == i;
        assert r in rs[1..];
      }
      ReplacementAt(rs[1..], i)
  }

  /** One pass over the source from offset `i`: at each offset either a replacement starts there,
      and its value stands for its range, or the character is copied. */
  function Substituted(source: string, rs: seq<Replacement>, i: nat): string
    decreases |source| - i
  {
    if i > |source| then ""
    else if StartsAt(rs, i) then
      var r := ReplacementAt(rs, i);
      r.value + if r.end > i then Substituted(source, rs, r.end) else Copied(source, rs, i)
    else Copied(source, rs, i)
  }

  function Copied(source: string, rs: seq<Replacement>, i: nat): string
    requires i <= |source|
    decreases |source| - i, 0
  {
    if i == |source| then "" else [source[i]] + Substituted(source, rs, i + 1)
  }

  predicate Covered(rs: seq<Replacement>, i: nat) {
    exists r :: r in rs && r.start <= i < r.end
  }

  /** The characters outside every range, in order. */
  function Outside(source: string, rs: seq<Replacement>, i: nat): string
    decreases |source| - i
  {
    if i >= |source| then ""
    else (if Covered(rs, i) then "" else [source[i]]) + Outside(source, rs, i + 1)
  }

  // ---------------------------------------------------------------- the splice

  /** `projected.slice(0, start) + value + projected.slice(end)` */
  function Apply(text: string, r: Replacement): string {
    (if r.start <= |text| then text[..r.start] else text) + r.value + (if r.end <= |text| then text[r.end..] else "")
  }

  function ApplyAll(text: string, rs: seq<Replacement>): string {
    if rs == [] then text else Apply(ApplyAll(text, rs[..|rs| - 1]), rs[|rs| - 1])
  }

  /** `(a, b) => b.start - a.start` */
  function Descending(a: Replacement, b: Replacement): int {
    b.start - a.start
  }

  function Splice(source: string, rs: seq<Replacement>): string {
    ApplyAll(source, StableSort.Sort(rs, (a, b) => Descending(a, b)))
  }

  method RewriteSplice(source: string, replacements: seq<Replacement>) returns (projected: string)
    ensures projected == Splice(source, replacements)
  {
    var sorted := StableSort.Sort(replacements, (a, b) => Descending(a, b));
    projected := source;
    for i := 0 to |sorted|
      invariant projected == ApplyAll(source, sorted[..i])
    {
      assert sorted[..i + 1][..i] == sorted[..i];
      var r := sorted[i];
      projected := (if r.start <= |projected| then projected[..r.start] else projected) + r.value
                   + (if r.end <= |projected| then projected[r.end..] else "");
    }
    assert sorted[..|sorted|] == sorted;
  }

  // ---------------------------------------------------------------- splice equals substitution

  ghost predicate Falling(rs: seq<Replacement>) {
    forall i, j :: 0 <= i < j < |rs| ==> rs[j].end <= rs[i].start && rs[j].start < rs[i].start
  }

  lemma CopiesOne(source: string, rs: seq<Replacement>, i: nat)
    requires i < |source| && !StartsAt(rs, i)
    ensures Substituted(source, rs, i) == [source[i]] + Substituted(source, rs, i + 1)
  {
  }

  /** Text in which no replacement starts is copied. */
  lemma {:induction false} CopiesThrough(source: string, rs: seq<Replacement>, i: nat, j: nat)
    requires i <= j <= |source| && forall k :: i <= k < j ==> !StartsAt(rs, k)
    ensures Substituted(source, rs, i) == source[i..j] + Substituted(source, rs, j)
    decreases |source| - i
  {
    hide StartsAt, Substituted;
    if i < j {
      CopiesOne(source, rs, i);
      CopiesThrough(source, rs, i + 1, j);
      assert source[i..j] == [source[i]] + source[i + 1..j];
    } else {
      assert source[i..j] == "";
    }
  }

  lemma InTextOf(source: string, rs: seq<Replacement>, r: Replacement)
    requires PairwiseApart(source, rs) && r in rs
    ensures InText(source, r)
  {
  }

  lemma SubstitutedAt(source: string, rs: seq<Replacement>, r: Replacement)
    requires PairwiseApart(source, rs) && r in rs && r.start <= r.end <= |source|
    ensures Substituted(source, rs, r.start)
         == r.value + if r.end > r.start then Substituted(source, rs, r.end) else Copied(source, rs, r.start)
  {
    OnlyStart(source, rs, r);
    hide PairwiseApart, StartsAt, ReplacementAt;
  }

  lemma OnlyStart(source: string, rs: seq<Replacement>, r: Replacement)
    requires PairwiseApart(source, rs) && r in rs
    ensures StartsAt(rs, r.start) && ReplacementAt(rs, r.start) == r
  {
    var x :| 0 <= x < |rs| && rs[x] == r;
    var y :| 0 <= y < |rs| && rs[y] == ReplacementAt(rs, r.start);
  }

  lemma StepThrough(source: string, rs: seq<Replacement>, r: Replacement, p: nat)
    requires PairwiseApart(source, rs) && r in rs && r.end <= p <= |source| && (r.start < p || r.start == |source|)
    requires forall k :: r.start < k < p ==> !StartsAt(rs, k)
    ensures r.start < p ==> Substituted(source, rs, r.start) == r.value + source[r.end..p] + Substituted(source, rs, p)
    ensures r.start == |source| ==> Substituted(source, rs, r.start) == r.value
  {
    InTextOf(source, rs, r);
    SubstitutedAt(source, rs, r);
    hide StartsAt, PairwiseApart, ReplacementAt, Substituted, Copied;
    if r.end > r.start {
      ReplaceThrough(source, rs, r, p);
    } else if r.start < p {
      InsertThrough(source, rs, r, p);
    } else {
      NothingCopied(source, rs);
    }
  }

  lemma NothingCopied(source: string, rs: seq<Replacement>)
    ensures Copied(source, rs, |source|) == ""
  {
  }

  lemma Regroup(a: string, b: string, c: string)
    ensures a + (b + c) == a + b + c
  {
  }

  lemma ReplaceThrough(source: string, rs: seq<Replacement>, r: Replacement, p: nat)
    requires r.start < r.end <= p <= |source| && forall k :: r.start < k < p ==> !StartsAt(rs, k)
    requires Substituted(source, rs, r.start) == r.value + Substituted(source, rs, r.end)
    ensures Substituted(source, rs, r.start) == r.value + source[r.end..p] + Substituted(source, rs, p)
  {
    hide StartsAt, ReplacementAt, Substituted;
    CopiesThrough(source, rs, r.end, p);
    Regroup(r.value, source[r.end..p], Substituted(source, rs, p));
  }

  lemma InsertThrough(source: string, rs: seq<Replacement>, r: Replacement, p: nat)
    requires r.start == r.end < p <= |source| && forall k :: r.start < k < p ==> !StartsAt(rs, k)
    requires Substituted(source, rs, r.start) == r.value + Copied(source, rs, r.start)
    ensures Substituted(source, rs, r.start) == r.value + source[r.end..p] + Substituted(source, rs, p)
  {
    hide StartsAt, ReplacementAt, Substituted;
    CopiesThrough(source, rs, r.start + 1, p);
    Regroup([source[r.start]], source[r.start + 1..p], Substituted(source, rs, p));
    assert [source[r.start]] + source[r.start + 1..p] == source[r.start..p];
    Regroup(r.value, source[r.start..p], Substituted(source, rs, p));
  }

  ghost predicate Pending(source: string, rs: seq<Replacement>, sorted: seq<Replacement>) {
    && PairwiseApart(source, rs) && Falling(sorted)
    && (forall r :: r in rs <==> r in sorted)
  }

  lemma NoStartBetween(source: string, rs: seq<Replacement>, sorted: seq<Replacement>, n: nat, k: nat)
    requires Pending(source, rs, sorted) && 1 <= n < |sorted| && sorted[n].start < k < sorted[n - 1].start
    ensures !StartsAt(rs, k)
  {
  }

  lemma NoStartAbove(source: string, rs: seq<Replacement>, sorted: seq<Replacement>, k: nat)
    requires Pending(source, rs, sorted) && |sorted| > 0 && sorted[0].start < k
    ensures !StartsAt(rs, k)
  {
  }

  lemma NoStartBelow(source: string, rs: seq<Replacement>, sorted: seq<Replacement>, k: nat)
    requires Pending(source, rs, sorted) && |sorted| > 0 && k < sorted[|sorted| - 1].start
    ensures !StartsAt(rs, k)
  {
  }

  /** The highest replacement: nothing starts above it. */
  lemma AppliedFirst(source: string, rs: seq<Replacement>, sorted: seq<Replacement>)
    requires Pending(source, rs, sorted) && |sorted| > 0 && InText(source, sorted[0])
    ensures ApplyAll(source, sorted[..1]) == source[..sorted[0].start] + Substituted(source, rs, sorted[0].start)
  {
    var r := sorted[0];
    assert r in sorted;
    forall k | r.start < k <= |source|
      ensures !StartsAt(rs, k)
    {
      NoStartAbove(source, rs, sorted, k);
    }
    StepThrough(source, rs, r, |source|);
    assert sorted[..1][..0] == [];
    assert source[r.end..|source|] == source[r.end..];
  }

  lemma NextLower(source: string, rs: seq<Replacement>, sorted: seq<Replacement>, n: nat)
    requires Pending(source, rs, sorted) && 1 <= n < |sorted|
    ensures sorted[n] in rs && InText(source, sorted[n])
    ensures sorted[n].end <= sorted[n - 1].start && sorted[n].start < sorted[n - 1].start
  {
  }

  lemma ApplySnoc(source: string, sorted: seq<Replacement>, n: nat)
    requires n < |sorted|
    ensures ApplyAll(source, sorted[..n + 1]) == Apply(ApplyAll(source, sorted[..n]), sorted[n])
  {
    assert sorted[..n + 1][..n] == sorted[..n];
  }

  lemma AppliedNext(source: string, rs: seq<Replacement>, sorted: seq<Replacement>, n: nat)
    requires Pending(source, rs, sorted) && 1 <= n < |sorted|
    requires sorted[n - 1].start <= |source|
    requires ApplyAll(source, sorted[..n]) ==
      source[..sorted[n - 1].start] + Substituted(source, rs, sorted[n - 1].start)
    ensures sorted[n].start <= |source|
    ensures ApplyAll(source, sorted[..n + 1]) == source[..sorted[n].start] + Substituted(source, rs, sorted[n].start)
  {
    hide StartsAt, Substituted, ApplyAll, Falling, PairwiseApart;
    var r, p := sorted[n], sorted[n - 1].start;
    NextLower(source, rs, sorted, n);
    forall k | r.start < k < p
      ensures !StartsAt(rs, k)
    {
      NoStartBetween(source, rs, sorted, n, k);
    }
    StepThrough(source, rs, r, p);
    ApplySnoc(source, sorted, n);
    var text := ApplyAll(source, sorted[..n]);
    assert text[..r.start] == source[..r.start];
    assert text[r.end..] == source[r.end..p] + Substituted(source, rs, p);
  }

  lemma {:induction false} AppliedSoFar(source: string, rs: seq<Replacement>, sorted: seq<Replacement>, n: nat)
    requires Pending(source, rs, sorted) && 1 <= n <= |sorted|
    ensures sorted[n - 1].start <= |source|
    ensures ApplyAll(source, sorted[..n]) ==
      source[..sorted[n - 1].start] + Substituted(source, rs, sorted[n - 1].start)
  {
    assert sorted[n - 1] in sorted && InText(source, sorted[n - 1]);
    if n == 1 {
      AppliedFirst(source, rs, sorted);
    } else {
      AppliedSoFar(source, rs, sorted, n - 1);
      AppliedNext(source, rs, sorted, n - 1);
    }
  }

  lemma FallsAt(source: string, rs: seq<Replacement>, sorted: seq<Replacement>, i: nat, j: nat)
    requires PairwiseApart(source, rs) && multiset(rs) == multiset(sorted) && i < j < |sorted|
    requires Descending(sorted[i], sorted[j]) <= 0
    ensures sorted[j].end <= sorted[i].start && sorted[j].start < sorted[i].start
  {
    ApartInSorted(source, rs, sorted, i, j);
  }

  lemma DescendingOrders(rs: seq<Replacement>)
    ensures var s := StableSort.Sort(rs, (a, b) => Descending(a, b));
            multiset(s) == multiset(rs) && forall i, j :: 0 <= i < j < |s| ==> Descending(s[i], s[j]) <= 0
  {
    var cmp := (a, b) => Descending(a, b);
    StableSort.SortOrders(rs, cmp);
    StableSort.SortPermutes(rs, cmp);
    var s := StableSort.Sort(rs, cmp);
    forall i, j | 0 <= i < j < |s|
      ensures Descending(s[i], s[j]) <= 0
    {
      assert cmp(s[i], s[j]) <= 0;
    }
  }

  lemma SortedFalls(source: string, rs: seq<Replacement>)
    requires PairwiseApart(source, rs)
    ensures Pending(source, rs, StableSort.Sort(rs, (a, b) => Descending(a, b)))
  {
    hide StableSort.Sort, PairwiseApart;
    var sorted := StableSort.Sort(rs, (a, b) => Descending(a, b));
    DescendingOrders(rs);
    StableSort.SameElements(rs, sorted);
    forall i, j | 0 <= i < j < |sorted|
      ensures sorted[j].end <= sorted[i].start && sorted[j].start < sorted[i].start
    {
      FallsAt(source, rs, sorted, i, j);
    }
  }

  /** Two places of a rearrangement hold two different, disjoint replacements. */
  lemma ApartInSorted(source: string, rs: seq<Replacement>, sorted: seq<Replacement>, i: nat, j: nat)
    requires PairwiseApart(source, rs) && multiset(rs) == multiset(sorted) && i < j < |sorted|
    ensures Apart(sorted[i], sorted[j])
  {
    StableSort.SameElements(rs, sorted);
    assert sorted[i] in sorted && sorted[j] in sorted;
    var x :| 0 <= x < |rs| && rs[x] == sorted[i];
    var y :| 0 <= y < |rs| && rs[y] == sorted[j];
    if x == y {
      Counting.OccursTwice(sorted, i, j);
      forall k | 0 <= k < |rs| && k != x
        ensures rs[k] != rs[x]
      {
        assert if k < x then Apart(rs[k], rs[x]) else Apart(rs[x], rs[k]);
      }
      Counting.OccursOnce(rs, x);
    } else if x < y {
      assert Apart(rs[x], rs[y]);
    } else {
      assert Apart(rs[y], rs[x]);
    }
  }

  lemma NothingReplaced(source: string, rs: seq<Replacement>, sorted: seq<Replacement>)
    requires Pending(source, rs, sorted) && sorted == []
    ensures ApplyAll(source, sorted) == source == Substituted(source, rs, 0)
  {
    assert forall k :: !StartsAt(rs, k);
    CopiesThrough(source, rs, 0, |source|);
  }

  /** Applying disjoint replacements from the highest start down is substituting them all at once,
      in whatever order they were discovered. */
  lemma SpliceIsSubstitution(source: string, rs: seq<Replacement>)
    requires PairwiseApart(source, rs)
    ensures Splice(source, rs) == Substituted(source, rs, 0)
  {
    var sorted := StableSort.Sort(rs, (a, b) => Descending(a, b));
    SortedFalls(source, rs);
    hide PairwiseApart, StartsAt, Substituted, ApplyAll, StableSort.Sort;
    if sorted == [] {
      NothingReplaced(source, rs, sorted);
    } else {
      var n := |sorted|;
      AppliedSoFar(source, rs, sorted, n);
      assert sorted[..n] == sorted;
      var p := sorted[n - 1].start;
      forall k | 0 <= k < p
        ensures !StartsAt(rs, k)
      {
        NoStartBelow(source, rs, sorted, k);
      }
      CopiesThrough(source, rs, 0, p);
    }
  }

  // ---------------------------------------------------------------- what survives

  /** A character of the result: kept from the source, or new with a replacement's value. */
  datatype Mark = Kept(c: char) | New(c: char)

  function NewMarks(value: string): (ms: seq<Mark>)
    ensures |ms| == |value| && forall k :: 0 <= k < |ms| ==> ms[k] == New(value[k])
  {
    seq(|value|, k requires 0 <= k < |value| => New(value[k]))
  }

  /** The substitution with every character's origin. */
  function Marked(source: string, rs: seq<Replacement>, i: nat): seq<Mark>
    decreases |source| - i
  {
    if i > |source| then []
    else if StartsAt(rs, i) then
      var r := ReplacementAt(rs, i);
      NewMarks(r.value) + if r.end > i then Marked(source, rs, r.end) else MarkedCopy(source, rs, i)
    else MarkedCopy(source, rs, i)
  }

  function MarkedCopy(source: string, rs: seq<Replacement>, i: nat): seq<Mark>
    requires i <= |source|
    decreases |source| - i, 0
  {
    if i == |source| then [] else [Kept(source[i])] + Marked(source, rs, i + 1)
  }

  function TextOf(ms: seq<Mark>): (text: string)
    ensures |text| == |ms| && forall k :: 0 <= k < |ms| ==> text[k] == ms[k].c
  {
    seq(|ms|, k requires 0 <= k < |ms| => ms[k].c)
  }

  function KeptOf(ms: seq<Mark>): string {
    if ms == [] then "" else (if ms[0].Kept? then [ms[0].c] else "") + KeptOf(ms[1..])
  }

  function NewOf(ms: seq<Mark>): string {
    if ms == [] then "" else (if ms[0].New? then [ms[0].c] else "") + NewOf(ms[1..])
  }

  /** The values, in the order of their starts. */
  function Values(source: string, rs: seq<Replacement>, i: nat): string
    decreases |source| - i
  {
    if i > |source| then ""
    else (if StartsAt(rs, i) then ReplacementAt(rs, i).value else "") + Values(source, rs, i + 1)
  }

  lemma {:induction false} NewMarksSplit(value: string, ms: seq<Mark>)
    ensures KeptOf(NewMarks(value) + ms) == KeptOf(ms)
    ensures NewOf(NewMarks(value) + ms) == value + NewOf(ms)
    decreases |value|
  {
    var all := NewMarks(value) + ms;
    if value == "" {
      assert all == ms && value + NewOf(ms) == NewOf(ms);
    } else {
      assert all[0] == New(value[0]) && all[1..] == NewMarks(value[1..]) + ms;
      NewMarksSplit(value[1..], ms);
      assert value == [value[0]] + value[1..];
    }
  }

  lemma KeptSplit(c: char, ms: seq<Mark>)
    ensures KeptOf([Kept(c)] + ms) == [c] + KeptOf(ms) && NewOf([Kept(c)] + ms) == NewOf(ms)
  {
    assert ([Kept(c)] + ms)[1..] == ms;
  }

  lemma TextSplit(a: seq<Mark>, b: seq<Mark>)
    ensures TextOf(a + b) == TextOf(a) + TextOf(b)
  {
  }

  lemma TextOfNew(value: string)
    ensures TextOf(NewMarks(value)) == value
  {
  }

  /** Without the marks it is the substitution. */
  lemma {:induction false} MarkedText(source: string, rs: seq<Replacement>, i: nat)
    ensures TextOf(Marked(source, rs, i)) == Substituted(source, rs, i)
    decreases |source| - i
  {
    hide StartsAt, ReplacementAt, TextOf, NewMarks;
    if i > |source| {
      TextOfNothing();
    } else if StartsAt(rs, i) && ReplacementAt(rs, i).end > i {
      var r := ReplacementAt(rs, i);
      MarkedText(source, rs, r.end);
      TextSplit(NewMarks(r.value), Marked(source, rs, r.end));
      TextOfNew(r.value);
    } else {
      MarkedCopyText(source, rs, i);
      if StartsAt(rs, i) {
        var r := ReplacementAt(rs, i);
        TextSplit(NewMarks(r.value), MarkedCopy(source, rs, i));
        TextOfNew(r.value);
      }
    }
  }

  lemma {:induction false} MarkedCopyText(source: string, rs: seq<Replacement>, i: nat)
    requires i <= |source|
    ensures TextOf(MarkedCopy(source, rs, i)) == Copied(source, rs, i)
    decreases |source| - i, 0
  {
    if i < |source| {
      MarkedText(source, rs, i + 1);
      TextSplit([Kept(source[i])], Marked(source, rs, i + 1));
    }
  }

  lemma TextOfNothing()
    ensures TextOf([]) == ""
  {
  }

  lemma {:induction false} OutsideSkips(source: string, rs: seq<Replacement>, i: nat, j: nat)
    requires i <= j <= |source| && forall k :: i <= k < j ==> Covered(rs, k)
    ensures Outside(source, rs, i) == Outside(source, rs, j)
    decreases |source| - i
  {
    hide Covered;
    if i < j {
      OutsideSkips(source, rs, i + 1, j);
    }
  }

  /** Offsets the pass visits: not inside a range, though one may start there. */
  ghost predicate AtBoundary(rs: seq<Replacement>, i: nat) {
    forall r :: r in rs ==> !(r.start < i < r.end)
  }

  lemma BoundaryAfter(source: string, rs: seq<Replacement>, r: Replacement)
    requires PairwiseApart(source, rs) && r in rs
    ensures AtBoundary(rs, r.end)
  {
  }

  lemma {:induction false} ValuesSkip(source: string, rs: seq<Replacement>, i: nat, j: nat)
    requires i <= j <= |source| && forall k :: i <= k < j ==> !StartsAt(rs, k)
    ensures Values(source, rs, i) == Values(source, rs, j)
    decreases |source| - i
  {
    if i < j {
      ValuesSkip(source, rs, i + 1, j);
    }
  }

  lemma NoneInside(source: string, rs: seq<Replacement>, r: Replacement)
    requires PairwiseApart(source, rs) && r in rs
    ensures forall k :: r.start < k < r.end ==> !StartsAt(rs, k)
  {
  }

  /** The characters kept are those outside every range, in order, and the others are the values. */
  lemma {:induction false} MarkedKeeps(source: string, rs: seq<Replacement>, i: nat)
    requires PairwiseApart(source, rs) && i <= |source| && AtBoundary(rs, i)
    ensures KeptOf(Marked(source, rs, i)) == Outside(source, rs, i)
    ensures NewOf(Marked(source, rs, i)) == Values(source, rs, i)
    decreases |source| - i
  {
    hide Covered, PairwiseApart, AtBoundary, StartsAt, ReplacementAt, KeptOf, NewOf;
    if StartsAt(rs, i) && ReplacementAt(rs, i).end > i {
      MarkedReplaces(source, rs, i);
    } else {
      MarkedCopies(source, rs, i);
      if StartsAt(rs, i) {
        NewMarksSplit(ReplacementAt(rs, i).value, MarkedCopy(source, rs, i));
      }
    }
  }

  lemma MarksAt(source: string, rs: seq<Replacement>, i: nat)
    requires i <= |source| && StartsAt(rs, i) && ReplacementAt(rs, i).end > i
    ensures var r := ReplacementAt(rs, i);
      && Marked(source, rs, i) == NewMarks(r.value) + Marked(source, rs, r.end)
      && Values(source, rs, i) == r.value + Values(source, rs, i + 1)
  {
    hide StartsAt, ReplacementAt;
  }

  lemma {:induction false} MarkedReplaces(source: string, rs: seq<Replacement>, i: nat)
    requires PairwiseApart(source, rs) && i <= |source|
    requires StartsAt(rs, i) && ReplacementAt(rs, i).end > i
    ensures KeptOf(Marked(source, rs, i)) == Outside(source, rs, i)
    ensures NewOf(Marked(source, rs, i)) == Values(source, rs, i)
    decreases |source| - i, 0
  {
    hide Covered, PairwiseApart, AtBoundary, StartsAt, ReplacementAt, KeptOf, NewOf, Marked, Values, Outside;
    var r := ReplacementAt(rs, i);
    MarksAt(source, rs, i);
    InTextOf(source, rs, r);
    BoundaryAfter(source, rs, r);
    MarkedKeeps(source, rs, r.end);
    CoveredBy(rs, r);
    OutsideSkips(source, rs, i, r.end);
    NoneInside(source, rs, r);
    ValuesSkip(source, rs, i + 1, r.end);
    NewMarksSplit(r.value, Marked(source, rs, r.end));
  }

  lemma {:induction false} MarkedCopies(source: string, rs: seq<Replacement>, i: nat)
    requires PairwiseApart(source, rs) && i <= |source| && AtBoundary(rs, i)
    requires StartsAt(rs, i) ==> ReplacementAt(rs, i).end <= i
    ensures KeptOf(MarkedCopy(source, rs, i)) == Outside(source, rs, i)
    ensures NewOf(MarkedCopy(source, rs, i)) == Values(source, rs, i + 1)
    decreases |source| - i, 0
  {
    hide Covered, PairwiseApart, AtBoundary, StartsAt, ReplacementAt;
    if i < |source| {
      CopiedIsOutside(source, rs, i);
      MarkedKeeps(source, rs, i + 1);
      KeptSplit(source[i], Marked(source, rs, i + 1));
    }
  }

  /** Of the spliced text, some characters are kept from the source and the others are new: the kept
      ones are exactly the characters outside every range, unchanged and in order, and the new ones are
      exactly the values, in the order of their ranges. */
  lemma SpliceKeepsOutside(source: string, rs: seq<Replacement>) returns (ms: seq<Mark>)
    requires PairwiseApart(source, rs)
    ensures TextOf(ms) == Splice(source, rs)
    ensures KeptOf(ms) == Outside(source, rs, 0)
    ensures NewOf(ms) == Values(source, rs, 0)
  {
    ms := Marked(source, rs, 0);
    SpliceIsSubstitution(source, rs);
    MarkedText(source, rs, 0);
    MarkedKeeps(source, rs, 0);
  }

  lemma CoveredBy(rs: seq<Replacement>, r: Replacement)
    requires r in rs
    ensures forall k :: r.start <= k < r.end ==> Covered(rs, k)
  {
  }

  /** A character at which no non-empty range starts and which lies inside none is outside. */
  lemma CopiedIsOutside(source: string, rs: seq<Replacement>, i: nat)
    requires PairwiseApart(source, rs) && AtBoundary(rs, i)
    requires StartsAt(rs, i) ==> ReplacementAt(rs, i).end <= i
    ensures !Covered(rs, i) && AtBoundary(rs, i + 1)
  {
  }
}
