/** For which ranges the splice of `rewriteMarkdown` in `scripts/project-doc-site.ts` is the simultaneous
    substitution, whatever the values and the discovery order: exactly when no two start together. */
module SpliceOrder {
  import opened MarkdownSplice
  import StableSort

  datatype Span = Span(start: nat, end: nat)

  function SpanOf(r: Replacement): Span {
    Span(r.start, r.end)
  }

  function Spans(rs: seq<Replacement>): (ss: seq<Span>)
    ensures |ss| == |rs|
  {
    seq(|rs|, i requires 0 <= i < |rs| => SpanOf(rs[i]))
  }

  /** No character lies in both; an empty range may touch the other one anywhere. */
  predicate Disjoint(a: Span, b: Span) {
    a.end <= b.start || b.end <= a.start
  }

  /** Ranges in the text, pairwise disjoint. */
  ghost predicate Ranges(source: string, spans: seq<Span>) {
    && (forall i :: 0 <= i < |spans| ==> spans[i].start <= spans[i].end <= |source|)
    && (forall i, j :: 0 <= i < j < |spans| ==> Disjoint(spans[i], spans[j]))
  }

  ghost predicate DistinctStarts(spans: seq<Span>) {
    forall i, j :: 0 <= i < j < |spans| ==> spans[i].start != spans[j].start
  }

  /** `rs` gives each of the ranges some value, in some order. */
  ghost predicate Over(rs: seq<Replacement>, spans: seq<Span>) {
    multiset(Spans(rs)) == multiset(spans)
  }

  ghost predicate Substitutes(source: string, spans: seq<Span>) {
    forall rs :: Over(rs, spans) ==> Splice(source, rs) == Substituted(source, rs, 0)
  }

  ghost predicate OrderFree(source: string, spans: seq<Span>) {
    forall rs, other :: Over(rs, spans) && multiset(rs) == multiset(other) ==>
        Splice(source, rs) == Splice(source, other)
  }

  // ---------------------------------------------------------------- distinct starts suffice

  lemma TwoPlaces<T>(s: seq<T>, v: T) returns (x: nat, y: nat)
    requires multiset(s)[v] >= 2
    ensures x < y < |s| && s[x] == v && s[y] == v
  {
    assert v in s;
    x :| 0 <= x < |s| && s[x] == v && v !in s[..x] by {
      FirstPlace(s, v);
    }
    assert s == s[..x] + [v] + s[x + 1..];
    assert v in s[x + 1..];
    var k :| 0 <= k < |s[x + 1..]| && s[x + 1..][k] == v;
    y := x + 1 + k;
  }

  lemma {:induction false} FirstPlace<T>(s: seq<T>, v: T)
    requires v in s
    ensures exists x :: 0 <= x < |s| && s[x] == v && v !in s[..x]
  {
    if s[0] == v {
      assert v !in s[..0];
    } else {
      FirstPlace(s[1..], v);
      var x :| 0 <= x < |s[1..]| && s[1..][x] == v && v !in s[1..][..x];
      assert s[..x + 1] == [s[0]] + s[1..][..x];
      assert s[x + 1] == v;
    }
  }

  /** Two places of a rearrangement come from two places. */
  lemma PlacesOf<T>(s: seq<T>, t: seq<T>, i: nat, j: nat) returns (x: nat, y: nat)
    requires multiset(s) == multiset(t) && i < j < |t|
    ensures x < |s| && y < |s| && x != y && s[x] == t[i] && s[y] == t[j]
  {
    StableSort.SameElements(s, t);
    if t[i] == t[j] {
      assert t == t[..i] + [t[i]] + t[i + 1..j] + [t[j]] + t[j + 1..];
      x, y := TwoPlaces(s, t[i]);
    } else {
      assert t[i] in s && t[j] in s;
      x :| 0 <= x < |s| && s[x] == t[i];
      y :| 0 <= y < |s| && s[y] == t[j];
    }
  }

  lemma OverIsApart(source: string, spans: seq<Span>, rs: seq<Replacement>)
    requires Ranges(source, spans) && DistinctStarts(spans) && Over(rs, spans)
    ensures PairwiseApart(source, rs)
  {
    var ss := Spans(rs);
    StableSort.SameElements(spans, ss);
    forall r | r in rs
      ensures InText(source, r)
    {
      var i :| 0 <= i < |rs| && rs[i] == r;
      assert ss[i] in spans;
    }
    forall i, j | 0 <= i < j < |rs|
      ensures Apart(rs[i], rs[j])
    {
      var x, y := PlacesOf(spans, ss, i, j);
      SpansApart(source, spans, x, y);
    }
  }

  lemma SpansApart(source: string, spans: seq<Span>, x: nat, y: nat)
    requires Ranges(source, spans) && DistinctStarts(spans) && x < |spans| && y < |spans| && x != y
    ensures var a, b := spans[x], spans[y];
            (a.end <= b.start && a.start < b.start) || (b.end <= a.start && b.start < a.start)
  {
    assert if x < y then Disjoint(spans[x], spans[y]) && spans[x].start != spans[y].start
           else Disjoint(spans[y], spans[x]) && spans[y].start != spans[x].start;
  }

  lemma OneAtStart(source: string, rs: seq<Replacement>, other: seq<Replacement>, i: nat)
    requires PairwiseApart(source, rs) && forall r :: r in rs <==> r in other
    ensures StartsAt(rs, i) <==> StartsAt(other, i)
    ensures StartsAt(rs, i) ==> ReplacementAt(rs, i) == ReplacementAt(other, i)
  {
    if StartsAt(rs, i) {
      OnlyStart(source, rs, ReplacementAt(other, i));
    }
  }

  lemma {:induction false} SubstitutedIgnoresOrder(source: string, rs: seq<Replacement>, other: seq<Replacement>,
          i: nat)
    requires PairwiseApart(source, rs) && forall r :: r in rs <==> r in other
    ensures Substituted(source, rs, i) == Substituted(source, other, i)
    decreases |source| - i
  {
    if i <= |source| {
      OneAtStart(source, rs, other, i);
      hide StartsAt, ReplacementAt, PairwiseApart;
      if StartsAt(rs, i) && ReplacementAt(rs, i).end > i {
        SubstitutedIgnoresOrder(source, rs, other, ReplacementAt(rs, i).end);
      } else if i < |source| {
        SubstitutedIgnoresOrder(source, rs, other, i + 1);
      }
    }
  }

  lemma ApartPermuted(source: string, rs: seq<Replacement>, other: seq<Replacement>)
    requires PairwiseApart(source, rs) && multiset(rs) == multiset(other)
    ensures PairwiseApart(source, other)
  {
    StableSort.SameElements(rs, other);
    forall i, j | 0 <= i < j < |other|
      ensures Apart(other[i], other[j])
    {
      var x, y := PlacesOf(rs, other, i, j);
      assert if x < y then Apart(rs[x], rs[y]) else Apart(rs[y], rs[x]);
    }
  }

  /** Replacements that are apart give the same text in any order. */
  lemma ApartIsOrderFree(source: string, rs: seq<Replacement>, other: seq<Replacement>)
    requires PairwiseApart(source, rs) && multiset(rs) == multiset(other)
    ensures PairwiseApart(source, other) && Splice(source, rs) == Splice(source, other)
  {
    hide Splice, Substituted;
    ApartPermuted(source, rs, other);
    SpliceIsSubstitution(source, rs);
    SpliceIsSubstitution(source, other);
    StableSort.SameElements(rs, other);
    SubstitutedIgnoresOrder(source, rs, other, 0);
  }

  // ---------------------------------------------------------------- equal starts do not

  /** The replacement that puts back what it takes. */
  function Same(source: string, s: Span): Replacement
    requires s.start <= s.end <= |source|
  {
    Replacement(s.start, s.end, source[s.start..s.end])
  }

  function AllSame(source: string, spans: seq<Span>): (rs: seq<Replacement>)
    requires forall i :: 0 <= i < |spans| ==> spans[i].start <= spans[i].end <= |source|
    ensures |rs| == |spans|
  {
    seq(|spans|, i requires 0 <= i < |spans| => Same(source, spans[i]))
  }

  lemma {:induction false} ApplyAllSplit(text: string, a: seq<Replacement>, b: seq<Replacement>)
    ensures ApplyAll(text, a + b) == ApplyAll(ApplyAll(text, a), b)
  {
    if b == [] {
      assert a + b == a;
    } else {
      ApplyAllSplit(text, a, b[..|b| - 1]);
      assert (a + b)[..|a + b| - 1] == a + b[..|b| - 1];
    }
  }

  lemma {:induction false} HighKeeps(text: string, rs: seq<Replacement>, m: nat)
    requires m <= |text| && forall r :: r in rs ==> r.start >= m
    ensures |ApplyAll(text, rs)| >= m
  {
    if rs != [] {
      assert rs[|rs| - 1] in rs;
      HighKeeps(text, rs[..|rs| - 1], m);
    }
  }

  /** Replacements that end by `s` and put back as much as they take leave the text from `s` on alone. */
  lemma {:induction false} LowKeeps(text: string, rs: seq<Replacement>, s: nat)
    requires s < |text| && forall r :: r in rs ==> r.start <= r.end <= s && |r.value| == r.end - r.start
    ensures |ApplyAll(text, rs)| == |text| && ApplyAll(text, rs)[s] == text[s]
  {
    if rs != [] {
      assert rs[|rs| - 1] in rs;
      LowKeeps(text, rs[..|rs| - 1], s);
    }
  }

  /** Where a replacement is inserted among sorted ones: before the first that starts no higher. */
  lemma {:induction false} InsertPlace(r: Replacement, s: seq<Replacement>) returns (k: nat)
    ensures k <= |s|
    ensures StableSort.Insert(r, s, (a, b) => Descending(a, b)) == s[..k] + [r] + s[k..]
    ensures forall i :: 0 <= i < k ==> s[i].start > r.start
    ensures k < |s| ==> s[k].start <= r.start
  {
    if s == [] || Descending(r, s[0]) <= 0 {
      k := 0;
      assert s[..0] + [r] + s[0..] == [r] + s;
    } else {
      var m := InsertPlace(r, s[1..]);
      k := m + 1;
      assert s[..k] + [r] + s[k..] == [s[0]] + (s[1..][..m] + [r] + s[1..][m..]);
      assert forall i :: 1 <= i < k ==> s[i] == s[1..][i - 1];
    }
  }

  lemma PartMembers<T>(s: seq<T>, k: nat)
    requires k <= |s|
    ensures forall r :: r in s[..k] ==> r in s
    ensures forall r :: r in s[k..] ==> r in s
  {
  }

  /** Where a replacement goes among the others, sorted. */
  lemma SortedOne(b: Replacement, others: seq<Replacement>) returns (high: seq<Replacement>, low: seq<Replacement>)
    ensures high + low == StableSort.Sort(others, (a, b) => Descending(a, b))
    ensures StableSort.Insert(b, high + low, (a, b) => Descending(a, b)) == high + [b] + low
    ensures forall r :: r in high ==> r in others && r.start > b.start
    ensures forall r :: r in low ==> r in others && r.start <= b.start
  {
    var s := StableSort.Sort(others, (a, b) => Descending(a, b));
    DescendingOrders(others);
    StableSort.SameElements(s, others);
    hide StableSort.Sort, StableSort.Insert;
    var k := InsertPlace(b, s);
    high, low := s[..k], s[k..];
    LowFrom(s, k, b.start);
    hide Descending;
    assert high + low == s;
    PartMembers(s, k);
  }

  /** Two replacements with one start, sorted into others: side by side, in the order listed. */
  lemma SortedPair(a: Replacement, b: Replacement, others: seq<Replacement>)
    returns (high: seq<Replacement>, low: seq<Replacement>)
    requires a.start == b.start
    ensures StableSort.Sort([a, b] + others, (a, b) => Descending(a, b)) == high + [a, b] + low
    ensures forall r :: r in high ==> r in others && r.start > a.start
    ensures forall r :: r in low ==> r in others && r.start <= a.start
  {
    high, low := SortedOne(b, others);
    SortTwo(a, b, others);
    hide StableSort.Sort, StableSort.Insert;
    var m := InsertPlace(a, high + [b] + low);
    PlaceOfPair(a, b, high, low, m);
  }

  lemma SortTwo(a: Replacement, b: Replacement, others: seq<Replacement>)
    ensures StableSort.Sort([a, b] + others, (a, b) => Descending(a, b))
         == StableSort.Insert(a, StableSort.Insert(b, StableSort.Sort(others, (a, b) => Descending(a, b)),
                                                   (a, b) => Descending(a, b)),
                              (a, b) => Descending(a, b))
  {
    var cmp := (a, b) => Descending(a, b);
    hide StableSort.Insert;
    assert ([a, b] + others)[1..] == [b] + others && ([b] + others)[1..] == others;
    assert StableSort.Sort([b] + others, cmp) == StableSort.Insert(b, StableSort.Sort(others, cmp), cmp);
  }

  lemma LowFrom(s: seq<Replacement>, k: nat, start: nat)
    requires forall i, j :: 0 <= i < j < |s| ==> Descending(s[i], s[j]) <= 0
    requires k <= |s| && (k < |s| ==> s[k].start <= start)
    ensures forall r :: r in s[k..] ==> r.start <= start
  {
    forall r | r in s[k..]
      ensures r.start <= start
    {
      var i :| 0 <= i < |s[k..]| && s[k..][i] == r;
      assert i > 0 ==> Descending(s[k], s[k + i]) <= 0;
    }
  }

  lemma PlaceOfPair(a: Replacement, b: Replacement, high: seq<Replacement>, low: seq<Replacement>, m: nat)
    requires a.start == b.start && m <= |high| + 1 + |low| && forall r :: r in high ==> r.start > a.start
    requires var t := high + [b] + low;
             (forall i :: 0 <= i < m ==> t[i].start > a.start) && (m < |t| ==> t[m].start <= a.start)
    ensures var t := high + [b] + low; t[..m] + [a] + t[m..] == high + [a, b] + low
  {
    var t := high + [b] + low;
    assert t[|high|] == b;
    assert forall i :: 0 <= i < |high| ==> t[i] == high[i] && high[i] in high;
    assert m == |high|;
    assert t[..m] == high && t[m..] == [b] + low;
  }

  /** Of the two orders each leaves the value applied last at the common start. */
  lemma LastStands(source: string, others: seq<Replacement>, insertion: Replacement, r: Replacement)
    requires insertion == Replacement(r.start, r.start, "x") && r.value == "y" && r.start <= r.end <= |source|
    requires forall o :: o in others ==> o.start <= o.end && |o.value| == o.end - o.start
    requires forall o :: o in others && o.start > r.start ==> o.start >= r.end
    requires forall o :: o in others && o.start <= r.start ==> o.end <= r.start
    ensures var text := Splice(source, [insertion, r] + others); r.start < |text| && text[r.start] == 'y'
    ensures var text := Splice(source, [r, insertion] + others); r.start < |text| && text[r.start] == 'x'
  {
    StandsAfter(source, others, insertion, r);
    StandsAfter(source, others, r, insertion);
  }

  lemma StandsAfter(source: string, others: seq<Replacement>, a: Replacement, b: Replacement)
    requires a.start == b.start && |a.value| == |b.value| == 1
    requires a.start <= a.end <= |source| && a.start <= b.end <= |source| && (a.end == a.start || b.end == a.start)
    requires forall o :: o in others ==> o.start <= o.end && |o.value| == o.end - o.start
    requires forall o :: o in others && o.start > a.start ==> o.start >= a.end && o.start >= b.end
    requires forall o :: o in others && o.start <= a.start ==> o.end <= a.start
    ensures var text := Splice(source, [a, b] + others); a.start < |text| && text[a.start] == b.value[0]
  {
    hide StableSort.Sort;
    var high, low := SortedPair(a, b, others);
    var far := if a.end > b.end then a.end else b.end;
    HighKeeps(source, high, far);
    var text := ApplyAll(source, high);
    PairApplied(text, a, b);
    ApplyAllSplit(source, high, [a, b]);
    ApplyAllSplit(source, high + [a, b], low);
    LowKeeps(ApplyAll(text, [a, b]), low, a.start);
  }

  lemma PairApplied(text: string, a: Replacement, b: Replacement)
    requires a.start == b.start && |b.value| == 1 && a.start <= a.end <= |text| && a.start <= b.end <= |text|
    ensures var t := ApplyAll(text, [a, b]); a.start < |t| && t[a.start] == b.value[0]
  {
    assert [a, b][..1] == [a] && [a][..0] == [];
    assert ApplyAll(text, [a]) == Apply(text, a);
    assert ApplyAll(text, [a, b]) == Apply(Apply(text, a), b);
  }

  /** A replacement that starts below `s` ends by `s` and puts back what it takes. */
  predicate PutsBack(source: string, r: Replacement, s: nat)
    requires s <= |source|
  {
    r.start < s ==> r.start <= r.end <= s && r.value == source[r.start..r.end]
  }

  lemma Pieces(source: string, i: nat, j: nat, s: nat, value: string, rest: string)
    requires i <= j <= s <= |source|
    ensures source[i..j] + (source[j..s] + value + rest) == source[i..s] + value + rest
  {
    assert source[i..s] == source[i..j] + source[j..s];
  }

  /** Below `s` nothing changes, and at `s` the first replacement listed there stands. */
  lemma {:induction false} LowSubstituted(source: string, rs: seq<Replacement>, i: nat, s: nat) returns (rest: string)
    requires i <= s <= |source| && rs != [] && rs[0].start == s
    requires forall r :: r in rs ==> PutsBack(source, r, s)
    ensures Substituted(source, rs, i) == source[i..s] + rs[0].value + rest
    decreases s - i
  {
    hide StartsAt, ReplacementAt, Substituted, PutsBack;
    if i == s {
      rest := FirstSubstituted(source, rs, s);
    } else {
      if StartsAt(rs, i) && ReplacementAt(rs, i).end > i {
        var r := JumpsHere(source, rs, i, s);
        rest := LowSubstituted(source, rs, r.end, s);
        Pieces(source, i, r.end, s, rs[0].value, rest);
      } else {
        CopiesHere(source, rs, i, s);
        rest := LowSubstituted(source, rs, i + 1, s);
        assert source[i..i + 1] == [source[i]];
        Pieces(source, i, i + 1, s, rs[0].value, rest);
      }
    }
  }

  lemma FirstSubstituted(source: string, rs: seq<Replacement>, s: nat) returns (rest: string)
    requires s <= |source| && rs != [] && rs[0].start == s
    ensures Substituted(source, rs, s) == source[s..s] + rs[0].value + rest
  {
    assert rs[0] in rs && StartsAt(rs, s) && ReplacementAt(rs, s) == rs[0];
    rest := if rs[0].end > s then Substituted(source, rs, rs[0].end) else Copied(source, rs, s);
  }

  lemma JumpsHere(source: string, rs: seq<Replacement>, i: nat, s: nat) returns (r: Replacement)
    requires i < s <= |source| && StartsAt(rs, i) && ReplacementAt(rs, i).end > i
    requires forall r :: r in rs ==> PutsBack(source, r, s)
    ensures i < r.end <= s && Substituted(source, rs, i) == source[i..r.end] + Substituted(source, rs, r.end)
  {
    r := ReplacementAt(rs, i);
  }

  lemma CopiesHere(source: string, rs: seq<Replacement>, i: nat, s: nat)
    requires i < s <= |source| && (StartsAt(rs, i) ==> ReplacementAt(rs, i).end <= i)
    requires forall r :: r in rs ==> PutsBack(source, r, s)
    ensures Substituted(source, rs, i) == [source[i]] + Substituted(source, rs, i + 1)
  {
  }

  /** Of two disjoint ranges with one start, one is empty; and at most one range there is not. */
  lemma EmptyAndOther(source: string, spans: seq<Span>) returns (x: nat, y: nat)
    requires Ranges(source, spans) && !DistinctStarts(spans)
    ensures x < |spans| && y < |spans| && x != y && spans[x].start == spans[x].end == spans[y].start
    ensures forall z :: 0 <= z < |spans| && z != y && spans[z].start == spans[y].start ==>
        spans[z].end == spans[z].start
  {
    var i, j :| 0 <= i < j < |spans| && spans[i].start == spans[j].start;
    var s := spans[i].start;
    assert Disjoint(spans[i], spans[j]);
    if z :| 0 <= z < |spans| && spans[z].start == s && spans[z].end > s {
      y := z;
      x := if z == i then j else i;
    } else {
      x, y := i, j;
    }
    forall z | 0 <= z < |spans| && z != y && spans[z].start == s
      ensures spans[z].end == s
    {
      assert if z < y then Disjoint(spans[z], spans[y]) else Disjoint(spans[y], spans[z]);
    }
  }

  function Without(spans: seq<Span>, lo: nat, hi: nat): seq<Span>
    requires lo < hi < |spans|
  {
    spans[..lo] + spans[lo + 1..hi] + spans[hi + 1..]
  }

  lemma WithoutTwo(spans: seq<Span>, lo: nat, hi: nat)
    requires lo < hi < |spans|
    ensures multiset(spans) == multiset(Without(spans, lo, hi)) + multiset{spans[lo], spans[hi]}
  {
    assert spans == spans[..lo] + [spans[lo]] + spans[lo + 1..hi] + [spans[hi]] + spans[hi + 1..];
  }

  lemma PlaceInRest(spans: seq<Span>, lo: nat, hi: nat, k: nat) returns (z: nat)
    requires lo < hi < |spans| && k < |Without(spans, lo, hi)|
    ensures z < |spans| && z != lo && z != hi && spans[z] == Without(spans, lo, hi)[k]
  {
    z := if k < lo then k else if k < hi - 1 then k + 1 else k + 2;
  }

  /** Whenever two ranges start together there are values for which the discovery order shows in the
      result, and for which the splice is not the substitution. */
  lemma SameStartOverwrites(source: string, spans: seq<Span>) returns (rs: seq<Replacement>, other: seq<Replacement>)
    requires Ranges(source, spans) && !DistinctStarts(spans)
    ensures Over(rs, spans) && multiset(rs) == multiset(other)
    ensures Splice(source, rs) != Splice(source, other)
    ensures Splice(source, rs) != Substituted(source, rs, 0)
  {
    var x, y := EmptyAndOther(source, spans);
    var s := spans[y].start;
    var lo, hi := if x < y then x else y, if x < y then y else x;
    var rest := Without(spans, lo, hi);
    RestFacts(source, spans, x, y);
    var others := AllSame(source, rest);
    var insertion, r := Replacement(s, s, "x"), Replacement(s, spans[y].end, "y");
    rs, other := [insertion, r] + others, [r, insertion] + others;
    hide Splice, Substituted, Over, Ranges, DistinctStarts, AllSame, Without, RestClear;
    WithoutTwo(spans, lo, hi);
    PairOver(source, spans, rest, insertion, r);
    PairSwapped(insertion, r, others);
    OthersFacts(source, rest, spans[y]);
    PairShows(source, others, insertion, r);
  }

  lemma PairOver(source: string, spans: seq<Span>, rest: seq<Span>, a: Replacement, b: Replacement)
    requires forall i :: 0 <= i < |rest| ==> rest[i].start <= rest[i].end <= |source|
    requires multiset(spans) == multiset(rest) + multiset{SpanOf(a), SpanOf(b)}
    ensures Over([a, b] + AllSame(source, rest), spans)
  {
    assert Spans([a, b] + AllSame(source, rest)) == [SpanOf(a), SpanOf(b)] + rest;
  }

  lemma PairSwapped(a: Replacement, b: Replacement, others: seq<Replacement>)
    ensures multiset([a, b] + others) == multiset([b, a] + others)
  {
  }

  lemma PairShows(source: string, others: seq<Replacement>, insertion: Replacement, r: Replacement)
    requires insertion == Replacement(r.start, r.start, "x") && r.value == "y" && r.start <= r.end <= |source|
    requires forall o :: o in others ==> GivesBack(source, o) && RestClear(SpanOf(o), SpanOf(r))
    ensures Splice(source, [insertion, r] + others) != Splice(source, [r, insertion] + others)
    ensures Splice(source, [insertion, r] + others) != Substituted(source, [insertion, r] + others, 0)
  {
    LastStands(source, others, insertion, r);
    var rs := [insertion, r] + others;
    assert forall o :: o in rs ==> o == insertion || o == r || o in others;
    var tail := LowSubstituted(source, rs, 0, r.start);
    hide Splice, Substituted;
    assert (source[0..r.start] + rs[0].value + tail)[r.start] == 'x';
  }

  predicate GivesBack(source: string, o: Replacement) {
    o.start <= o.end <= |source| && o.value == source[o.start..o.end]
  }

  lemma RestFacts(source: string, spans: seq<Span>, x: nat, y: nat)
    requires Ranges(source, spans) && x < |spans| && y < |spans| && x != y
    requires spans[x].start == spans[x].end == spans[y].start
    requires forall z :: 0 <= z < |spans| && z != y && spans[z].start == spans[y].start ==>
        spans[z].end == spans[z].start
    ensures var rest := if x < y then Without(spans, x, y) else Without(spans, y, x);
            forall i :: 0 <= i < |rest| ==> rest[i].start <= rest[i].end <= |source| && RestClear(rest[i], spans[y])
  {
    var lo, hi := if x < y then x else y, if x < y then y else x;
    forall i | 0 <= i < |Without(spans, lo, hi)|
      ensures var o := Without(spans, lo, hi)[i]; o.start <= o.end <= |source| && RestClear(o, spans[y])
    {
      var z := PlaceInRest(spans, lo, hi, i);
      RestIsClear(source, spans, x, y, z);
    }
  }

  lemma OthersFacts(source: string, rest: seq<Span>, r: Span)
    requires forall i :: 0 <= i < |rest| ==> rest[i].start <= rest[i].end <= |source| && RestClear(rest[i], r)
    ensures forall o :: o in AllSame(source, rest) ==> GivesBack(source, o) && RestClear(SpanOf(o), r)
  {
    var others := AllSame(source, rest);
    forall o | o in others
      ensures GivesBack(source, o) && RestClear(SpanOf(o), r)
    {
      var i :| 0 <= i < |others| && others[i] == o;
      assert SpanOf(o) == rest[i];
    }
  }

  /** Clear of the range `r`, and of the point where it starts. */
  predicate RestClear(o: Span, r: Span) {
    && (o.start > r.start ==> o.start >= r.end)
    && (o.start <= r.start ==> o.end <= r.start)
  }

  lemma RestIsClear(source: string, spans: seq<Span>, x: nat, y: nat, z: nat)
    requires Ranges(source, spans) && x < |spans| && y < |spans| && z < |spans| && x != y && z != x && z != y
    requires spans[x].start == spans[x].end == spans[y].start
    requires spans[z].start == spans[y].start ==> spans[z].end == spans[z].start
    ensures RestClear(spans[z], spans[y])
  {
    assert if z < y then Disjoint(spans[z], spans[y]) else Disjoint(spans[y], spans[z]);
    assert if z < x then Disjoint(spans[z], spans[x]) else Disjoint(spans[x], spans[z]);
  }

  // ---------------------------------------------------------------- the exact condition

  /** For disjoint ranges: the starts are distinct exactly when, for all values and all discovery orders,
      the splice is the simultaneous substitution; and exactly when the discovery order never shows. */
  lemma DistinctStartsIff(source: string, spans: seq<Span>)
    requires Ranges(source, spans)
    ensures DistinctStarts(spans) <==> Substitutes(source, spans)
    ensures DistinctStarts(spans) <==> OrderFree(source, spans)
  {
    hide Splice, Substituted, Ranges;
    if DistinctStarts(spans) {
      forall rs | Over(rs, spans)
        ensures Splice(source, rs) == Substituted(source, rs, 0)
      {
        OverIsApart(source, spans, rs);
        SpliceIsSubstitution(source, rs);
      }
      forall rs, other | Over(rs, spans) && multiset(rs) == multiset(other)
        ensures Splice(source, rs) == Splice(source, other)
      {
        OverIsApart(source, spans, rs);
        ApartIsOrderFree(source, rs, other);
      }
    } else {
      var rs, other := SameStartOverwrites(source, spans);
    }
  }
}
