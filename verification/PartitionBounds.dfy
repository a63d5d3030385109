/** What longest-processing-time assignment guarantees: conservation, spread, which partitions
    stay empty, and Graham's bound against every other assignment. */
module PartitionBounds {
  import opened Partitions
  import StableSort

  // ---------------------------------------------------------------- sums over files

  function Sum(f: string -> real, s: seq<string>): real {
    if s == [] then 0.0 else Sum(f, s[..|s| - 1]) + f(s[|s| - 1])
  }

  function Flat(ls: seq<seq<string>>): seq<string> {
    if ls == [] then [] else Flat(ls[..|ls| - 1]) + ls[|ls| - 1]
  }

  lemma {:induction false} SumConcat(f: string -> real, a: seq<string>, b: seq<string>)
    ensures Sum(f, a + b) == Sum(f, a) + Sum(f, b)
  {
    if b == [] {
      assert a + b == a;
    } else {
      var n := |b| - 1;
      SumConcat(f, a, b[..n]);
      assert (a + b)[..|a + b| - 1] == a + b[..n];
    }
  }

  /** A sum does not depend on the order of its terms. */
  lemma {:induction false} SumPermuted(f: string -> real, a: seq<string>, b: seq<string>)
    requires multiset(a) == multiset(b)
    ensures Sum(f, a) == Sum(f, b)
    decreases |a|
  {
    StableSort.SameElements(a, b);
    if a != [] {
      var x := a[|a| - 1];
      assert x in b;
      var i :| 0 <= i < |b| && b[i] == x;
      var c := b[..i] + b[i + 1..];
      assert a == a[..|a| - 1] + [x];
      WithoutAt(b, i);
      SumPermuted(f, a[..|a| - 1], c);
      SumWithout(f, b, i);
    }
  }

  lemma WithoutAt(b: seq<string>, i: nat)
    requires i < |b|
    ensures multiset(b[..i] + b[i + 1..]) == multiset(b) - multiset{b[i]}
  {
    assert b == b[..i] + ([b[i]] + b[i + 1..]);
  }

  lemma SumOne(f: string -> real, x: string)
    ensures Sum(f, [x]) == f(x)
  {
  }

  lemma SumWithout(f: string -> real, b: seq<string>, i: nat)
    requires i < |b|
    ensures Sum(f, b) == Sum(f, b[..i] + b[i + 1..]) + f(b[i])
  {
    hide Sum;
    assert b == b[..i] + ([b[i]] + b[i + 1..]);
    SumOne(f, b[i]);
    SumConcat(f, b[..i], b[i + 1..]);
    SumConcat(f, b[..i], [b[i]] + b[i + 1..]);
    SumConcat(f, [b[i]], b[i + 1..]);
  }

  /** `n` copies of `c` added up. */
  function Times(n: nat, c: real): real {
    if n == 0 then 0.0 else Times(n - 1, c) + c
  }

  lemma {:induction false} TimesIsProduct(n: nat, c: real)
    ensures Times(n, c) == n as real * c
  {
    if n > 0 {
      TimesIsProduct(n - 1, c);
      assert n as real == (n - 1) as real + 1.0;
      assert ((n - 1) as real + 1.0) * c == (n - 1) as real * c + c;
    }
  }

  lemma {:induction false} FlatAtMost(f: string -> real, ls: seq<seq<string>>, c: real)
    requires forall k :: 0 <= k < |ls| ==> Sum(f, ls[k]) <= c
    ensures Sum(f, Flat(ls)) <= Times(|ls|, c)
  {
    if ls != [] {
      var n := |ls| - 1;
      FlatAtMost(f, ls[..n], c);
      SumConcat(f, Flat(ls[..n]), ls[n]);
    }
  }

  lemma {:induction false} FlatAtLeast(f: string -> real, ls: seq<seq<string>>, c: real)
    requires forall k :: 0 <= k < |ls| ==> Sum(f, ls[k]) >= c
    ensures Sum(f, Flat(ls)) >= Times(|ls|, c)
  {
    if ls != [] {
      var n := |ls| - 1;
      FlatAtLeast(f, ls[..n], c);
      SumConcat(f, Flat(ls[..n]), ls[n]);
    }
  }

  lemma {:induction false} SumNonNegative(f: string -> real, s: seq<string>)
    requires forall x :: x in s ==> f(x) >= 0.0
    ensures Sum(f, s) >= 0.0
    ensures forall x :: x in s ==> f(x) <= Sum(f, s)
  {
    if s != [] {
      SumNonNegative(f, s[..|s| - 1]);
      assert s == s[..|s| - 1] + [s[|s| - 1]];
    }
  }

  lemma PrefixSum(f: string -> real, s: seq<string>, n: nat)
    requires n <= |s| && forall x :: x in s ==> f(x) >= 0.0
    ensures Sum(f, s[..n]) <= Sum(f, s)
  {
    assert s == s[..n] + s[n..];
    SumConcat(f, s[..n], s[n..]);
    SumNonNegative(f, s[n..]);
  }

  lemma {:induction false} FlatMember(ls: seq<seq<string>>, k: nat, x: string)
    requires k < |ls| && x in ls[k]
    ensures x in Flat(ls)
  {
    var n := |ls| - 1;
    if k < n {
      FlatMember(ls[..n], k, x);
    }
  }

  lemma {:induction false} FlatSource(ls: seq<seq<string>>, x: string) returns (k: nat)
    requires x in Flat(ls)
    ensures k < |ls| && x in ls[k]
  {
    var n := |ls| - 1;
    if x in ls[n] {
      k := n;
    } else {
      k := FlatSource(ls[..n], x);
    }
  }

  // ---------------------------------------------------------------- what each greedy step keeps

  function WeightOf(w: Weights): string -> real {
    x => Weight(w, x)
  }

  ghost predicate SumsRight(bs: seq<Bucket>, w: Weights) {
    forall k :: 0 <= k < |bs| ==> bs[k].sum == Sum(WeightOf(w), bs[k].files)
  }

  /** Placing one file keeps the list of all files, up to order. */
  lemma {:induction false} FlatAppend(ls: seq<seq<string>>, b: nat, x: string)
    requires b < |ls|
    ensures multiset(Flat(ls[b := ls[b] + [x]])) == multiset(Flat(ls)) + multiset{x}
  {
    var n := |ls| - 1;
    var ms := ls[b := ls[b] + [x]];
    if b == n {
      assert ms[..n] == ls[..n];
    } else {
      assert ms[..n] == ls[..n][b := ls[..n][b] + [x]];
      FlatAppend(ls[..n], b, x);
    }
  }

  lemma EmptySums(m: nat, w: Weights)
    ensures |Empty(m)| == m && SumsRight(Empty(m), w)
  {
  }

  lemma EmptyFlat(m: nat)
    ensures Flat(Files(Empty(m))) == []
    decreases m
  {
    if m > 0 {
      var ls := Files(Empty(m));
      assert ls[..m - 1] == Files(Empty(m - 1));
      EmptyFlat(m - 1);
    }
  }

  /** Every file lands in exactly one partition, and each bucket's sum is its files' weight. */
  lemma {:induction false} GreedyConserves(files: seq<string>, w: Weights, m: nat, bs: seq<Bucket>)
    requires Greedy(files, w, m, bs)
    ensures |bs| == m && SumsRight(bs, w)
    ensures multiset(Flat(Files(bs))) == multiset(files)
    decreases |files|
  {
    hide Flat, Files, SumsRight, Put, Empty, LeastBucket;
    if files == [] {
      EmptySums(m, w);
      EmptyFlat(m);
    } else {
      var prev: seq<Bucket>, b: nat :| Greedy(Init(files), w, m, prev) && GreedyStep(prev, b, Last(files), w, bs);
      GreedyConserves(Init(files), w, m, prev);
      LeastIsBucket(prev, b);
      PutConserves(prev, b, Last(files), w);
      assert files == Init(files) + [Last(files)];
    }
  }

  lemma LeastIsBucket(bs: seq<Bucket>, b: nat)
    requires LeastBucket(bs, b)
    ensures b < |bs|
  {
  }

  lemma PutSums(prev: seq<Bucket>, b: nat, file: string, w: Weights)
    requires b < |prev| && SumsRight(prev, w)
    ensures |Put(prev, b, file, w)| == |prev| && SumsRight(Put(prev, b, file, w), w)
  {
  }

  lemma PutConserves(prev: seq<Bucket>, b: nat, file: string, w: Weights)
    requires b < |prev| && SumsRight(prev, w)
    ensures |Put(prev, b, file, w)| == |prev| && SumsRight(Put(prev, b, file, w), w)
    ensures multiset(Flat(Files(Put(prev, b, file, w)))) == multiset(Flat(Files(prev))) + multiset{file}
  {
    hide SumsRight, Flat;
    var bs := Put(prev, b, file, w);
    var grown := prev[b].files + [file];
    PutSums(prev, b, file, w);
    FlatAppend(Files(prev), b, file);
    assert Files(bs) == Files(prev)[b := grown];
  }

  ghost predicate NonNegative(files: seq<string>, w: Weights) {
    forall x :: x in files ==> Weight(w, x) >= 0.0
  }

  /** No two partitions differ by more than the largest weight. */
  lemma {:induction false} GreedySpread(files: seq<string>, w: Weights, m: nat, bs: seq<Bucket>, top: real)
    requires Greedy(files, w, m, bs) && NonNegative(files, w)
    requires top >= 0.0 && forall x :: x in files ==> Weight(w, x) <= top
    ensures forall i, j :: 0 <= i < |bs| && 0 <= j < |bs| ==> bs[i].sum - bs[j].sum <= top
    decreases |files|
  {
    if files != [] {
      var prev: seq<Bucket>, b: nat :| Greedy(Init(files), w, m, prev) && GreedyStep(prev, b, Last(files), w, bs);
      GreedySpread(Init(files), w, m, prev, top);
      assert Last(files) in files;
      forall i, j | 0 <= i < |bs| && 0 <= j < |bs|
        ensures bs[i].sum - bs[j].sum <= top
      {
        assert !Less(prev[j], prev[b]);
        assert bs[j].sum >= prev[j].sum;
      }
    }
  }

  // ---------------------------------------------------------------- empty partitions

  /** How many buckets hold no file. */
  function Empties(bs: seq<Bucket>): nat {
    if bs == [] then 0 else Empties(bs[..|bs| - 1]) + if bs[|bs| - 1].files == [] then 1 else 0
  }

  function CountNonNegative(files: seq<string>, w: Weights): nat {
    if files == [] then 0 else CountNonNegative(Init(files), w) + if Weight(w, Last(files)) >= 0.0 then 1 else 0
  }

  function Minus(a: nat, b: nat): nat {
    if a < b then 0 else a - b
  }

  lemma {:induction false} EmptiesAfter(bs: seq<Bucket>, b: nat, x: Bucket)
    requires b < |bs| && x.files != []
    ensures Empties(bs[b := x]) == Empties(bs) - if bs[b].files == [] then 1 else 0
  {
    var n := |bs| - 1;
    if b == n {
      assert bs[b := x][..n] == bs[..n];
    } else {
      assert bs[b := x][..n] == bs[..n][b := x];
      EmptiesAfter(bs[..n], b, x);
    }
  }

  lemma {:induction false} EmptiesExist(bs: seq<Bucket>)
    ensures Empties(bs) > 0 <==> exists k :: 0 <= k < |bs| && bs[k].files == []
  {
    if bs != [] {
      var n := |bs| - 1;
      EmptiesExist(bs[..n]);
      if k :| 0 <= k < |bs| && bs[k].files == [] {
        assert k < n ==> bs[..n][k].files == [];
      }
    }
  }

  lemma {:induction false} AllEmpty(m: nat)
    ensures Empties(Empty(m)) == m
  {
    if m > 0 {
      assert Empty(m)[..m - 1] == Empty(m - 1);
      AllEmpty(m - 1);
    }
  }

  ghost predicate SomeNegative(bs: seq<Bucket>) {
    exists k :: 0 <= k < |bs| && bs[k].sum < 0.0
  }

  ghost predicate EmptyMeansZero(bs: seq<Bucket>) {
    forall k :: 0 <= k < |bs| && bs[k].files == [] ==> bs[k].sum == 0.0
  }

  /** After `n` files, `p` of them non-negative, given out in descending order: one partition per
      non-negative file is filled first, the first negative file fills at most one more, and from
      then on the bucket it went to stays the least. */
  ghost predicate Filled(n: nat, p: nat, m: nat, bs: seq<Bucket>) {
    && |bs| == m && EmptyMeansZero(bs) && p <= n
    && Empties(bs) == Minus(m, if n <= p + 1 then n else p + 1)
    && (p == n ==> !SomeNegative(bs))
    && (p < n && Empties(bs) > 0 ==> SomeNegative(bs))
  }

  lemma LeastIsEmpty(bs: seq<Bucket>, b: nat)
    requires LeastBucket(bs, b) && EmptyMeansZero(bs) && !SomeNegative(bs)
    ensures Empties(bs) > 0 ==> bs[b].files == []
  {
    EmptiesExist(bs);
    if Empties(bs) > 0 {
      var k :| 0 <= k < |bs| && bs[k].files == [];
      assert !Less(bs[k], bs[b]);
      assert !(bs[b].sum < 0.0);
    }
  }

  lemma EmptiesPut(prev: seq<Bucket>, b: nat, file: string, w: Weights)
    requires b < |prev| && EmptyMeansZero(prev)
    ensures var bs := Put(prev, b, file, w);
            && EmptyMeansZero(bs)
            && Empties(bs) == Empties(prev) - (if prev[b].files == [] then 1 else 0)
  {
    EmptiesAfter(prev, b, Bucket(prev[b].sum + Weight(w, file), prev[b].files + [file]));
  }

  lemma FillNonNegative(prev: seq<Bucket>, b: nat, file: string, w: Weights, n: nat, m: nat)
    requires Filled(n, n, m, prev) && LeastBucket(prev, b) && Weight(w, file) >= 0.0
    ensures Filled(n + 1, n + 1, m, Put(prev, b, file, w))
  {
    EmptiesPut(prev, b, file, w);
    LeastIsEmpty(prev, b);
    EmptiesExist(prev);
    var bs := Put(prev, b, file, w);
    forall k | 0 <= k < |bs|
      ensures bs[k].sum >= 0.0
    {
      assert !(prev[k].sum < 0.0);
    }
  }

  lemma FillNegative(prev: seq<Bucket>, b: nat, file: string, w: Weights, n: nat, p: nat, m: nat)
    requires Filled(n, p, m, prev) && LeastBucket(prev, b) && Weight(w, file) < 0.0
    ensures Filled(n + 1, p, m, Put(prev, b, file, w))
  {
    EmptiesPut(prev, b, file, w);
    EmptiesExist(prev);
    var bs := Put(prev, b, file, w);
    if p == n {
      LeastIsEmpty(prev, b);
      if prev[b].files == [] {
        assert bs[b].sum < 0.0;
      }
    } else if Empties(prev) > 0 {
      var k :| 0 <= k < |prev| && prev[k].sum < 0.0;
      assert !Less(prev[k], prev[b]);
      assert bs[b].sum < 0.0;
    }
  }

  lemma {:induction false} CountAll(files: seq<string>, w: Weights)
    ensures CountNonNegative(files, w) <= |files|
    ensures NonNegative(files, w) ==> CountNonNegative(files, w) == |files|
  {
    if files != [] {
      CountAll(Init(files), w);
      assert forall x :: x in Init(files) ==> x in files;
      assert Last(files) in files;
    }
  }

  lemma InitDescends(files: seq<string>, w: Weights)
    requires files != [] && Descending(files, w)
    ensures Descending(Init(files), w)
  {
  }

  lemma EarlierNonNegative(files: seq<string>, w: Weights)
    requires files != [] && Descending(files, w) && Weight(w, Last(files)) >= 0.0
    ensures forall x :: x in Init(files) ==> Weight(w, x) >= 0.0
  {
  }

  lemma {:induction false} GreedyFills(files: seq<string>, w: Weights, m: nat, bs: seq<Bucket>)
    requires Greedy(files, w, m, bs) && Descending(files, w)
    ensures Filled(|files|, CountNonNegative(files, w), m, bs)
    decreases |files|
  {
    if files == [] {
      AllEmpty(m);
    } else {
      InitDescends(files, w);
      hide Filled, Descending, LeastBucket, Less, Weight;
      var init, last := Init(files), Last(files);
      var prev: seq<Bucket>, b: nat :| Greedy(init, w, m, prev) && GreedyStep(prev, b, last, w, bs);
      GreedyFills(init, w, m, prev);
      if Weight(w, last) >= 0.0 {
        EarlierNonNegative(files, w);
        CountAll(init, w);
        FillNonNegative(prev, b, last, w, |init|, m);
      } else {
        FillNegative(prev, b, last, w, |init|, CountNonNegative(init, w), m);
      }
    }
  }

  /** Every partition is non-empty exactly when there are at least as many files as partitions and
      the files of non-negative weight alone leave at most one partition empty. */
  lemma NoneEmptyIff(files: seq<string>, w: Weights, m: nat, bs: seq<Bucket>)
    requires Greedy(files, w, m, bs) && Descending(files, w)
    ensures (forall k :: 0 <= k < |bs| ==> bs[k].files != []) <==> |files| >= m && CountNonNegative(files, w) + 1 >= m
  {
    GreedyFills(files, w, m, bs);
    EmptiesExist(bs);
  }

  /** With non-negative weights, zero included: exactly when there are enough files. */
  lemma NoneEmptyNonNegative(files: seq<string>, w: Weights, m: nat, bs: seq<Bucket>)
    requires Greedy(files, w, m, bs) && Descending(files, w) && NonNegative(files, w)
    ensures (forall k :: 0 <= k < |bs| ==> bs[k].files != []) <==> |files| >= m
  {
    NoneEmptyIff(files, w, m, bs);
    CountAll(files, w);
  }

  // ---------------------------------------------------------------- Graham's bound

  /** `other` assigns the same files to the same number of partitions, in any way. */
  ghost predicate SameFiles(files: seq<string>, m: nat, other: seq<seq<string>>) {
    |other| == m && multiset(Flat(other)) == multiset(files)
  }

  ghost predicate AtMost(other: seq<seq<string>>, w: Weights, opt: real) {
    forall k :: 0 <= k < |other| ==> Sum(WeightOf(w), other[k]) <= opt
  }

  /** A file at least as heavy as the one being placed. */
  predicate Big(w: Weights, v: real, x: string) {
    Weight(w, x) >= v
  }

  /** A big file that leaves no room for another big one in a partition of weight `opt`. */
  predicate Huge(w: Weights, v: real, opt: real, x: string) {
    Weight(w, x) >= v && Weight(w, x) > opt - v
  }

  function Score(w: Weights, v: real, opt: real): string -> real {
    x => if Huge(w, v, opt, x) then 2.0 else if Big(w, v, x) then 1.0 else 0.0
  }

  function CountBig(s: seq<string>, w: Weights, v: real): nat {
    if s == [] then 0 else CountBig(s[..|s| - 1], w, v) + if Big(w, v, s[|s| - 1]) then 1 else 0
  }

  function CountHuge(s: seq<string>, w: Weights, v: real, opt: real): nat {
    if s == [] then 0 else CountHuge(s[..|s| - 1], w, v, opt) + if Huge(w, v, opt, s[|s| - 1]) then 1 else 0
  }

  lemma {:induction false} ScoreCounts(s: seq<string>, w: Weights, v: real, opt: real)
    ensures Sum(Score(w, v, opt), s) == CountBig(s, w, v) as real + CountHuge(s, w, v, opt) as real
    ensures CountHuge(s, w, v, opt) <= CountBig(s, w, v) <= |s|
  {
    if s != [] {
      ScoreCounts(s[..|s| - 1], w, v, opt);
    }
  }

  /** What a partition's weight says about the big and huge files in it. */
  lemma {:induction false} BigWeigh(s: seq<string>, w: Weights, v: real, opt: real)
    requires NonNegative(s, w) && v >= 0.0 && opt >= v
    ensures var t := Sum(WeightOf(w), s);
            && t >= 0.0
            && (CountBig(s, w, v) >= 1 ==> t >= v)
            && (CountBig(s, w, v) >= 2 ==> t >= 2.0 * v)
            && (CountBig(s, w, v) >= 3 ==> t >= 3.0 * v)
            && (CountHuge(s, w, v, opt) >= 1 ==> t > opt - v)
            && (CountHuge(s, w, v, opt) >= 1 && CountBig(s, w, v) >= 2 ==> t > opt)
  {
    if s != [] {
      var init := s[..|s| - 1];
      assert forall x :: x in init ==> x in s;
      assert s[|s| - 1] in s;
      BigWeigh(init, w, v, opt);
      ScoreCounts(init, w, v, opt);
    }
  }

  /** Where a big file weighs more than a third of `opt`, no partition scores above two. */
  lemma ScoreAtMostTwo(s: seq<string>, w: Weights, v: real, opt: real)
    requires NonNegative(s, w) && v >= 0.0 && opt >= v && 3.0 * v > opt
    requires Sum(WeightOf(w), s) <= opt
    ensures Sum(Score(w, v, opt), s) <= 2.0
  {
    BigWeigh(s, w, v, opt);
    ScoreCounts(s, w, v, opt);
  }

  /** A partition of big files too full to take another one scores at least two. */
  lemma ScoreAtLeastTwo(s: seq<string>, w: Weights, v: real, opt: real)
    requires opt >= v && forall x :: x in s ==> Big(w, v, x)
    requires Sum(WeightOf(w), s) > opt - v
    ensures Sum(Score(w, v, opt), s) >= 2.0
  {
    var f := Score(w, v, opt);
    if |s| == 1 {
      assert s[..0] == [];
      assert s[0] in s && Sum(WeightOf(w), s) == Weight(w, s[0]);
      assert Sum(f, s) == f(s[0]);
    } else if |s| >= 2 {
      var a, b := s[|s| - 1], s[|s| - 2];
      var init := s[..|s| - 1];
      assert a in s && b in s && init[|init| - 1] == b;
      SumNonNegative(f, init[..|init| - 1]);
    }
  }

  /** The step that made a bucket its present size: `v` was added to a least bucket. */
  lemma LightFile(files: seq<string>, n: nat, w: Weights, m: nat, prev: seq<Bucket>, b: nat, other: seq<seq<string>>,
          opt: real)
    requires n < |files| && m >= 1 && NonNegative(files, w)
    requires Greedy(files[..n], w, m, prev) && LeastBucket(prev, b)
    requires SameFiles(files, m, other) && AtMost(other, w, opt)
    ensures Times(m, prev[b].sum) + Weight(w, files[n]) <= Times(m, opt)
  {
    var f := WeightOf(w);
    GreedyConserves(files[..n], w, m, prev);
    var lists := Files(prev);
    forall k | 0 <= k < |lists|
      ensures Sum(f, lists[k]) >= prev[b].sum
    {
      assert !Less(prev[k], prev[b]);
    }
    FlatAtLeast(f, lists, prev[b].sum);
    SumPermuted(f, Flat(lists), files[..n]);
    assert files[..n + 1][..n] == files[..n];
    PrefixSum(f, files, n + 1);
    SumPermuted(f, Flat(other), files);
    FlatAtMost(f, other, opt);
  }

  lemma HeaviestHolds(files: seq<string>, w: Weights, m: nat, other: seq<seq<string>>, opt: real, x: string)
    requires SameFiles(files, m, other) && AtMost(other, w, opt) && NonNegative(files, w) && x in files
    ensures Weight(w, x) <= opt
  {
    StableSort.SameElements(Flat(other), files);
    var k := FlatSource(other, x);
    forall y | y in other[k]
      ensures Weight(w, y) >= 0.0
    {
      FlatMember(other, k, y);
    }
    SumNonNegative(WeightOf(w), other[k]);
    assert WeightOf(w)(x) <= Sum(WeightOf(w), other[k]);
  }

  /** A heavy file never lifts a bucket above `opt`: counting big and huge files on both sides. */
  lemma HeavyFile(files: seq<string>, n: nat, w: Weights, m: nat, prev: seq<Bucket>, b: nat, other: seq<seq<string>>,
          opt: real)
    requires n < |files| && m >= 1 && NonNegative(files, w) && Descending(files, w)
    requires Greedy(files[..n], w, m, prev) && LeastBucket(prev, b)
    requires SameFiles(files, m, other) && AtMost(other, w, opt)
    requires 3.0 * Weight(w, files[n]) > opt
    ensures prev[b].sum + Weight(w, files[n]) <= opt
  {
    var v := Weight(w, files[n]);
    var f := Score(w, v, opt);
    assert files[n] in files;
    HeaviestHolds(files, w, m, other, opt, files[n]);
    OthersScore(files, w, m, other, v, opt);
    if prev[b].sum + v > opt {
      PlacedScore(files, n, w, m, prev, b, opt);
      assert files[..n + 1][..n] == files[..n];
      PrefixSum(f, files, n + 1);
      TimesIsProduct(m, 2.0);
    }
  }

  lemma OthersScore(files: seq<string>, w: Weights, m: nat, other: seq<seq<string>>, v: real, opt: real)
    requires NonNegative(files, w) && SameFiles(files, m, other) && AtMost(other, w, opt)
    requires v >= 0.0 && opt >= v && 3.0 * v > opt
    ensures Sum(Score(w, v, opt), files) <= Times(m, 2.0)
  {
    StableSort.SameElements(Flat(other), files);
    var f := Score(w, v, opt);
    forall k | 0 <= k < |other|
      ensures Sum(f, other[k]) <= 2.0
    {
      forall x | x in other[k]
        ensures Weight(w, x) >= 0.0
      {
        FlatMember(other, k, x);
      }
      ScoreAtMostTwo(other[k], w, v, opt);
    }
    FlatAtMost(f, other, 2.0);
    SumPermuted(f, Flat(other), files);
  }

  lemma PlacedScore(files: seq<string>, n: nat, w: Weights, m: nat, prev: seq<Bucket>, b: nat, opt: real)
    requires n < |files| && Descending(files, w)
    requires Greedy(files[..n], w, m, prev) && LeastBucket(prev, b)
    requires opt >= Weight(w, files[n]) && prev[b].sum + Weight(w, files[n]) > opt
    ensures Sum(Score(w, Weight(w, files[n]), opt), files[..n]) >= Times(m, 2.0)
  {
    var v := Weight(w, files[n]);
    var f := Score(w, v, opt);
    GreedyConserves(files[..n], w, m, prev);
    var lists := Files(prev);
    StableSort.SameElements(Flat(lists), files[..n]);
    forall k | 0 <= k < |lists|
      ensures Sum(f, lists[k]) >= 2.0
    {
      assert !Less(prev[k], prev[b]);
      forall x | x in lists[k]
        ensures Big(w, v, x)
      {
        FlatMember(lists, k, x);
        var i :| 0 <= i < n && files[..n][i] == x;
        assert Weight(w, files[i]) >= Weight(w, files[n]);
      }
      ScoreAtLeastTwo(lists[k], w, v, opt);
    }
    FlatAtLeast(f, lists, 2.0);
    SumPermuted(f, Flat(lists), files[..n]);
  }

  /** `(4/3 - 1/(3m)) * opt`, multiplied by `3m`. */
  ghost predicate WithinGraham(m: nat, load: real, opt: real) {
    3.0 * (m as real) * load <= (4.0 * (m as real) - 1.0) * opt
  }

  lemma GrahamLight(m: nat, s: real, v: real, opt: real)
    requires m >= 1 && v >= 0.0 && 3.0 * v <= opt
    requires Times(m, s) + v <= Times(m, opt)
    ensures WithinGraham(m, s + v, opt)
  {
    LightProducts(m, s, v, opt);
    LightThird(m as real, v, opt);
    LightTotal(m as real, s, v, opt);
  }

  lemma LightProducts(m: nat, s: real, v: real, opt: real)
    requires Times(m, s) + v <= Times(m, opt)
    ensures (m as real) * s + v <= (m as real) * opt
  {
    hide Times;
    TimesIsProduct(m, s);
    TimesIsProduct(m, opt);
  }

  lemma LightThird(r: real, v: real, opt: real)
    requires r >= 1.0 && 3.0 * v <= opt
    ensures 3.0 * (r * v) - 3.0 * v <= r * opt - opt
  {
    MulMonotone(r - 1.0, 3.0 * v, opt);
  }

  lemma LightTotal(r: real, s: real, v: real, opt: real)
    requires r * s + v <= r * opt && 3.0 * (r * v) - 3.0 * v <= r * opt - opt
    ensures 3.0 * r * (s + v) <= (4.0 * r - 1.0) * opt
  {
    LightTerms(r, s, v, opt);
    LightSum(r * s, r * v, r * opt, v, opt);
  }

  lemma LightSum(rs: real, rv: real, ro: real, v: real, opt: real)
    requires rs + v <= ro && 3.0 * rv - 3.0 * v <= ro - opt
    ensures 3.0 * rs + 3.0 * rv <= 4.0 * ro - opt
  {
  }

  /** The products of `GrahamLight`, multiplied out. */
  lemma LightTerms(r: real, s: real, v: real, opt: real)
    ensures 3.0 * r * (s + v) == 3.0 * (r * s) + 3.0 * (r * v)
    ensures (4.0 * r - 1.0) * opt == 4.0 * (r * opt) - opt
  {
  }

  lemma MulMonotone(a: real, x: real, y: real)
    requires a >= 0.0 && x <= y
    ensures a * x <= a * y
  {
  }

  lemma GrahamHeavy(m: nat, load: real, opt: real)
    requires m >= 1 && load <= opt && opt >= 0.0
    ensures WithinGraham(m, load, opt)
  {
    var r := m as real;
    MulMonotone(3.0 * r, load, opt);
    MulMonotone(opt, 3.0 * r, 4.0 * r - 1.0);
  }

  /** Graham's bound: no bucket weighs more than `4/3 - 1/(3m)` times the heaviest partition of
      any other assignment of the same files. */
  lemma {:induction false} GrahamPrefix(files: seq<string>, n: nat, w: Weights, m: nat, bs: seq<Bucket>,
          other: seq<seq<string>>, opt: real)
    requires n <= |files| && m >= 1 && NonNegative(files, w) && Descending(files, w)
    requires Greedy(files[..n], w, m, bs)
    requires SameFiles(files, m, other) && AtMost(other, w, opt) && opt >= 0.0
    ensures |bs| == m && forall k :: 0 <= k < m ==> WithinGraham(m, bs[k].sum, opt)
    decreases n
  {
    if n == 0 {
      forall k | 0 <= k < m
        ensures WithinGraham(m, bs[k].sum, opt)
      {
        GrahamHeavy(m, 0.0, opt);
      }
    } else {
      var part := files[..n];
      var prev: seq<Bucket>, b: nat :| Greedy(Init(part), w, m, prev) && GreedyStep(prev, b, Last(part), w, bs);
      assert Init(part) == files[..n - 1] && Last(part) == files[n - 1];
      GrahamPrefix(files, n - 1, w, m, prev, other, opt);
      GrahamStep(files, n - 1, w, m, prev, b, other, opt);
    }
  }

  lemma GrahamStep(files: seq<string>, n: nat, w: Weights, m: nat, prev: seq<Bucket>, b: nat, other: seq<seq<string>>,
          opt: real)
    requires n < |files| && m >= 1 && NonNegative(files, w) && Descending(files, w)
    requires Greedy(files[..n], w, m, prev) && LeastBucket(prev, b)
    requires SameFiles(files, m, other) && AtMost(other, w, opt) && opt >= 0.0
    ensures WithinGraham(m, prev[b].sum + Weight(w, files[n]), opt)
  {
    var v := Weight(w, files[n]);
    assert files[n] in files;
    if 3.0 * v <= opt {
      LightFile(files, n, w, m, prev, b, other, opt);
      GrahamLight(m, prev[b].sum, v, opt);
    } else {
      HeavyFile(files, n, w, m, prev, b, other, opt);
      GrahamHeavy(m, prev[b].sum + v, opt);
    }
  }
}
