/** What `assignWeightedPartitions` of `scripts/coverage-partitions.ts` promises about the lists it
    returns, measured by the recorded durations. */
module PartitionPromises {
  import opened Locale
  import opened Partitions
  import opened PartitionBounds
  import StableSort

  /** A file takes the time recorded for it, and one unit where none is. */
  ghost predicate Durations(w: Weights, time: string -> real) {
    forall x :: time(x) == if x in w then w[x] else 1.0
  }

  /** The time of the longest list. */
  function Longest(ls: seq<seq<string>>, time: string -> real): real {
    if ls == [] then 0.0 else
      var rest, last := Longest(ls[..|ls| - 1], time), Sum(time, ls[|ls| - 1]);
      if last > rest then last else rest
  }

  lemma {:induction false} LongestBounds(ls: seq<seq<string>>, time: string -> real)
    ensures Longest(ls, time) >= 0.0 && forall k :: 0 <= k < |ls| ==> Sum(time, ls[k]) <= Longest(ls, time)
    ensures Longest(ls, time) == 0.0 || exists k :: 0 <= k < |ls| && Longest(ls, time) == Sum(time, ls[k])
  {
    if ls != [] {
      var init := ls[..|ls| - 1];
      LongestBounds(init, time);
      if Longest(init, time) != 0.0 {
        var k :| 0 <= k < |init| && Longest(init, time) == Sum(time, init[k]);
        assert ls[k] == init[k];
      }
    }
  }

  /** The code's weights are these durations. */
  lemma {:induction false} SameSum(w: Weights, time: string -> real, s: seq<string>)
    requires Durations(w, time)
    ensures Sum(WeightOf(w), s) == Sum(time, s)
  {
    if s != [] {
      SameSum(w, time, s[..|s| - 1]);
    }
  }

  lemma SameLoads(w: Weights, time: string -> real, ls: seq<seq<string>>)
    requires Durations(w, time)
    ensures forall k :: 0 <= k < |ls| ==> Sum(WeightOf(w), ls[k]) == Sum(time, ls[k])
  {
    forall k | 0 <= k < |ls|
      ensures Sum(WeightOf(w), ls[k]) == Sum(time, ls[k])
    {
      SameSum(w, time, ls[k]);
    }
  }

  lemma SameSigns(w: Weights, time: string -> real, files: seq<string>)
    requires Durations(w, time)
    ensures NonNegative(files, w) <==> forall x :: x in files ==> time(x) >= 0.0
  {
  }

  /** Every file is in exactly one partition: the partitions together rearrange the input. */
  lemma AssignmentConserves(files: seq<string>, w: Weights, m: nat, locale: Collation, lists: seq<seq<string>>)
    requires IsCollation(locale) && IsAssignment(files, w, m, locale, lists)
    ensures |lists| == m && multiset(Flat(lists)) == multiset(files)
  {
    var bs: seq<Bucket> :| Greedy(Weighted(files, w, locale), w, m, bs) && lists == Files(bs);
    WeightedDescends(files, w, locale);
    GreedyConserves(Weighted(files, w, locale), w, m, bs);
  }

  lemma WeightedNonNegative(files: seq<string>, w: Weights, locale: Collation)
    requires IsCollation(locale)
    ensures NonNegative(Weighted(files, w, locale), w) <==> NonNegative(files, w)
  {
    WeightedDescends(files, w, locale);
    StableSort.SameElements(Weighted(files, w, locale), files);
  }

  /** Graham's bound against every assignment of the same files to `m` partitions, in recorded time. */
  lemma AssignmentWithinGraham(files: seq<string>, w: Weights, time: string -> real, m: nat, locale: Collation,
          lists: seq<seq<string>>, other: seq<seq<string>>)
    requires IsCollation(locale) && m >= 1 && Durations(w, time) && forall x :: x in files ==> time(x) >= 0.0
    requires IsAssignment(files, w, m, locale, lists) && SameFiles(files, m, other)
    ensures 3.0 * (m as real) * Longest(lists, time) <= (4.0 * (m as real) - 1.0) * Longest(other, time)
  {
    hide Longest, IsAssignment, Durations, WithinGraham, IsCollation, SameFiles;
    SameSigns(w, time, files);
    LongestWithin(files, w, time, m, locale, lists, other);
    GrahamMeans(m, Longest(lists, time), Longest(other, time));
  }

  lemma LongestWithin(files: seq<string>, w: Weights, time: string -> real, m: nat, locale: Collation,
          lists: seq<seq<string>>, other: seq<seq<string>>)
    requires IsCollation(locale) && m >= 1 && Durations(w, time) && NonNegative(files, w)
    requires IsAssignment(files, w, m, locale, lists) && SameFiles(files, m, other)
    ensures WithinGraham(m, Longest(lists, time), Longest(other, time))
  {
    hide Greedy, Weighted, NonNegative, Descending, IsCollation, WithinGraham, Flat, Longest, Durations, Sum;
    var sorted := Weighted(files, w, locale);
    var bs: seq<Bucket> :| Greedy(sorted, w, m, bs) && lists == Files(bs);
    WeightedDescends(files, w, locale);
    WeightedNonNegative(files, w, locale);
    LongestBounds(lists, time);
    LongestBounds(other, time);
    SameLoads(w, time, lists);
    SameLoads(w, time, other);
    assert sorted[..|sorted|] == sorted;
    GrahamPrefix(sorted, |sorted|, w, m, bs, other, Longest(other, time));
    GreedyConserves(sorted, w, m, bs);
    if Longest(lists, time) == 0.0 {
      GrahamHeavy(m, 0.0, Longest(other, time));
    }
  }

  lemma GrahamMeans(m: nat, load: real, opt: real)
    ensures WithinGraham(m, load, opt) <==> 3.0 * (m as real) * load <= (4.0 * (m as real) - 1.0) * opt
  {
  }

  /** No two partitions differ by more than the longest time of a file. */
  lemma AssignmentSpread(files: seq<string>, w: Weights, time: string -> real, m: nat, locale: Collation,
          lists: seq<seq<string>>, top: real)
    requires IsCollation(locale) && Durations(w, time) && forall x :: x in files ==> 0.0 <= time(x) <= top
    requires IsAssignment(files, w, m, locale, lists) && top >= 0.0
    ensures forall i, j :: 0 <= i < |lists| && 0 <= j < |lists| ==> Sum(time, lists[i]) - Sum(time, lists[j]) <= top
  {
    var sorted := Weighted(files, w, locale);
    var bs: seq<Bucket> :| Greedy(sorted, w, m, bs) && lists == Files(bs);
    WeightedDescends(files, w, locale);
    StableSort.SameElements(sorted, files);
    GreedySpread(sorted, w, m, bs, top);
    GreedyConserves(sorted, w, m, bs);
    SameLoads(w, time, lists);
  }

  // ---------------------------------------------------------------- the order inside a list

  ghost predicate InTurn(s: seq<string>, x: string, y: string) {
    exists i, j :: 0 <= i < j < |s| && s[i] == x && s[j] == y
  }

  ghost predicate ListsInTurn(files: seq<string>, bs: seq<Bucket>) {
    && (forall k, i :: 0 <= k < |bs| && 0 <= i < |bs[k].files| ==> bs[k].files[i] in files)
    && (forall k, i, j :: 0 <= k < |bs| && 0 <= i < j < |bs[k].files| ==>
        InTurn(files, bs[k].files[i], bs[k].files[j]))
  }

  lemma {:induction false} GreedyInTurn(files: seq<string>, w: Weights, m: nat, bs: seq<Bucket>)
    requires Greedy(files, w, m, bs)
    ensures ListsInTurn(files, bs)
    decreases |files|
  {
    if files != [] {
      var prev: seq<Bucket>, b: nat :| Greedy(Init(files), w, m, prev) && GreedyStep(prev, b, Last(files), w, bs);
      GreedyInTurn(Init(files), w, m, prev);
      PutInTurn(files, prev, b, w);
    }
  }

  lemma PutInTurn(files: seq<string>, prev: seq<Bucket>, b: nat, w: Weights)
    requires files != [] && b < |prev| && ListsInTurn(Init(files), prev)
    ensures ListsInTurn(files, Put(prev, b, Last(files), w))
  {
    var bs := Put(prev, b, Last(files), w);
    forall k, i, j | 0 <= k < |bs| && 0 <= i < j < |bs[k].files|
      ensures InTurn(files, bs[k].files[i], bs[k].files[j])
    {
      if j < |prev[k].files| {
        InTurnLonger(files, prev[k].files[i], prev[k].files[j]);
      } else {
        LastInTurn(files, bs[k].files[i]);
      }
    }
  }

  lemma InTurnLonger(files: seq<string>, x: string, y: string)
    requires files != [] && InTurn(Init(files), x, y)
    ensures InTurn(files, x, y)
  {
    var i, j :| 0 <= i < j < |Init(files)| && Init(files)[i] == x && Init(files)[j] == y;
    assert files[i] == x && files[j] == y;
  }

  lemma LastInTurn(files: seq<string>, x: string)
    requires files != [] && x in Init(files)
    ensures InTurn(files, x, Last(files))
  {
    var i :| 0 <= i < |Init(files)| && Init(files)[i] == x;
    assert files[i] == x && files[|files| - 1] == Last(files);
  }

  /** Longer files are run first, and files of equal time in the order of their names. */
  ghost predicate RunsFirst(time: string -> real, locale: Collation, x: string, y: string) {
    time(x) > time(y) || (time(x) == time(y) && locale(x, y) <= 0)
  }

  lemma ScheduledInTurn(files: seq<string>, w: Weights, time: string -> real, locale: Collation, x: string, y: string)
    requires IsCollation(locale) && Durations(w, time) && InTurn(Weighted(files, w, locale), x, y)
    ensures RunsFirst(time, locale, x, y)
  {
    var s := Weighted(files, w, locale);
    var i, j :| 0 <= i < j < |s| && s[i] == x && s[j] == y;
    WeightedOrdered(files, w, locale);
    assert CompareFiles(w, locale, s[i], s[j]) <= 0;
  }

  lemma AssignmentInTurn(files: seq<string>, w: Weights, time: string -> real, m: nat, locale: Collation,
          lists: seq<seq<string>>)
    requires IsCollation(locale) && Durations(w, time) && IsAssignment(files, w, m, locale, lists)
    ensures forall k, i, j :: 0 <= k < |lists| && 0 <= i < j < |lists[k]| ==>
        RunsFirst(time, locale, lists[k][i], lists[k][j])
  {
    hide RunsFirst, IsCollation, Durations, Weighted, Greedy;
    var sorted := Weighted(files, w, locale);
    var bs: seq<Bucket> :| Greedy(sorted, w, m, bs) && lists == Files(bs);
    GreedyInTurn(sorted, w, m, bs);
    forall k, i, j | 0 <= k < |lists| && 0 <= i < j < |lists[k]|
      ensures RunsFirst(time, locale, lists[k][i], lists[k][j])
    {
      assert InTurn(sorted, bs[k].files[i], bs[k].files[j]);
      ScheduledInTurn(files, w, time, locale, lists[k][i], lists[k][j]);
    }
  }

  // ---------------------------------------------------------------- empty partitions

  /** How many of the files take no negative time. */
  function CountAtLeastZero(files: seq<string>, time: string -> real): nat {
    if files == [] then 0 else
      CountAtLeastZero(files[..|files| - 1], time) + if time(files[|files| - 1]) >= 0.0 then 1 else 0
  }

  function OneIfNonNegative(w: Weights): string -> real {
    x => if Weight(w, x) >= 0.0 then 1.0 else 0.0
  }

  lemma {:induction false} CountIsSum(s: seq<string>, w: Weights)
    ensures Sum(OneIfNonNegative(w), s) == CountNonNegative(s, w) as real
  {
    if s != [] {
      CountIsSum(s[..|s| - 1], w);
    }
  }

  lemma CountPermuted(s: seq<string>, t: seq<string>, w: Weights)
    requires multiset(s) == multiset(t)
    ensures CountNonNegative(s, w) == CountNonNegative(t, w)
  {
    SumPermuted(OneIfNonNegative(w), s, t);
    CountIsSum(s, w);
    CountIsSum(t, w);
  }

  lemma {:induction false} SameCount(w: Weights, time: string -> real, s: seq<string>)
    requires Durations(w, time)
    ensures CountNonNegative(s, w) == CountAtLeastZero(s, time)
  {
    if s != [] {
      SameCount(w, time, s[..|s| - 1]);
    }
  }

  /** The code's comment promises non-empty partitions; this is exactly when they are, for any
      recorded durations. */
  lemma AssignmentNoneEmptyIff(files: seq<string>, w: Weights, time: string -> real, m: nat, locale: Collation,
          lists: seq<seq<string>>)
    requires IsCollation(locale) && Durations(w, time) && IsAssignment(files, w, m, locale, lists)
    ensures (forall k :: 0 <= k < |lists| ==> lists[k] != []) <==>
      |files| >= m && CountAtLeastZero(files, time) + 1 >= m
    ensures (forall x :: x in files ==> time(x) >= 0.0) ==>
      ((forall k :: 0 <= k < |lists| ==> lists[k] != []) <==> |files| >= m)
  {
    var sorted := Weighted(files, w, locale);
    var bs: seq<Bucket> :| Greedy(sorted, w, m, bs) && lists == Files(bs);
    WeightedDescends(files, w, locale);
    WeightedNonNegative(files, w, locale);
    StableSort.SameElements(sorted, files);
    NoneEmptyIff(sorted, w, m, bs);
    CountPermuted(sorted, files, w);
    SameCount(w, time, files);
    SameSigns(w, time, files);
    if NonNegative(files, w) {
      NoneEmptyNonNegative(sorted, w, m, bs);
    }
    assert forall k :: 0 <= k < |lists| ==> lists[k] == bs[k].files;
  }

  /** Three files recorded with negative durations leave one of three partitions empty. */
  lemma NegativeDurationsLeaveEmpty(locale: Collation, lists: seq<seq<string>>)
    requires IsCollation(locale)
    requires IsAssignment(["a", "b", "c"], map["a" := -1.0, "b" := -1.0, "c" := -1.0], 3, locale, lists)
    ensures exists k :: 0 <= k < |lists| && lists[k] == []
  {
    var files, w: Weights := ["a", "b", "c"], map["a" := -1.0, "b" := -1.0, "c" := -1.0];
    var time: string -> real := x => if x in w then w[x] else 1.0;
    AssignmentNoneEmptyIff(files, w, time, 3, locale, lists);
    assert files[..2] == ["a", "b"] && ["a", "b"][..1] == ["a"] && ["a"][..0] == [];
    assert CountAtLeastZero(["a"], time) == 0;
    assert CountAtLeastZero(["a", "b"], time) == 0;
  }
}
