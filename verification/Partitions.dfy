/** `assignWeightedPartitions`, `siftDown`, `bucketAt` and `bucketLess` of
    `scripts/coverage-partitions.ts`: longest-processing-time assignment on a hand-written heap. */
module Partitions {
  import opened Locale
  import StableSort

  type Weights = map<string, real>

  const UNKNOWN_FILE_WEIGHT := 1.0

  function Weight(w: Weights, file: string): real {
    if file in w then w[file] else UNKNOWN_FILE_WEIGHT
  }

  datatype Bucket = Bucket(sum: real, files: seq<string>)

  /** `bucketLess` on two present buckets. */
  predicate Less(a: Bucket, b: Bucket) {
    if a.sum != b.sum then a.sum < b.sum else |a.files| < |b.files|
  }

  // ---------------------------------------------------------------- the greedy rule

  predicate LeastBucket(bs: seq<Bucket>, b: nat) {
    b < |bs| && forall k :: 0 <= k < |bs| ==> !Less(bs[k], bs[b])
  }

  function Put(bs: seq<Bucket>, b: nat, file: string, w: Weights): seq<Bucket>
    requires b < |bs|
  {
    bs[b := Bucket(bs[b].sum + Weight(w, file), bs[b].files + [file])]
  }

  function Empty(m: nat): seq<Bucket> {
    seq(m, _ => Bucket(0.0, []))
  }

  ghost predicate GreedyStep(prev: seq<Bucket>, b: nat, file: string, w: Weights, bs: seq<Bucket>) {
    LeastBucket(prev, b) && bs == Put(prev, b, file, w)
  }

  function Init(files: seq<string>): seq<string>
    requires files != []
  {
    files[..|files| - 1]
  }

  function Last(files: seq<string>): string
    requires files != []
  {
    files[|files| - 1]
  }

  /** `bs` can be reached by giving each file, in order, to a bucket least by (sum, file count). */
  ghost predicate Greedy(files: seq<string>, w: Weights, m: nat, bs: seq<Bucket>) {
    if files == [] then bs == Empty(m)
    else exists prev, b :: Greedy(Init(files), w, m, prev) && GreedyStep(prev, b, Last(files), w, bs)
  }

  // ---------------------------------------------------------------- the heap

  ghost predicate Indices(h: seq<nat>, n: nat) {
    multiset(h) == multiset(seq(n, i => i))
  }

  ghost predicate InRange(bs: seq<Bucket>, h: seq<nat>) {
    forall i :: 0 <= i < |h| ==> h[i] < |bs|
  }

  function Parent(c: nat): nat
    requires c > 0
  {
    (c - 1) / 2
  }

  /** The bucket at heap position `c` is not less than the one at position `p`. */
  ghost predicate NotLess(bs: seq<Bucket>, h: seq<nat>, p: nat, c: nat)
    requires p < |h| && c < |h| && InRange(bs, h)
  {
    !Less(bs[h[c]], bs[h[p]])
  }

  /** Heap order everywhere except between position `hole` and its children. */
  ghost predicate HeapBut(bs: seq<Bucket>, h: seq<nat>, hole: nat)
    requires InRange(bs, h)
  {
    && (forall c :: 0 < c < |h| && Parent(c) != hole ==> NotLess(bs, h, Parent(c), c))
    && (forall c :: 0 < c < |h| && Parent(c) == hole && hole > 0 ==> NotLess(bs, h, Parent(hole), c))
  }

  ghost predicate Heap(bs: seq<Bucket>, h: seq<nat>)
    requires InRange(bs, h)
  {
    forall c :: 0 < c < |h| ==> NotLess(bs, h, Parent(c), c)
  }

  lemma HeapRoot(bs: seq<Bucket>, h: seq<nat>, i: nat)
    requires InRange(bs, h) && Heap(bs, h) && i < |h|
    ensures !Less(bs[h[i]], bs[h[0]])
  {
    if i > 0 {
      HeapRoot(bs, h, Parent(i));
      assert NotLess(bs, h, Parent(i), i);
    }
  }

  lemma IndicesHold(h: seq<nat>, n: nat)
    requires Indices(h, n)
    ensures |h| == n
    ensures forall i :: 0 <= i < |h| ==> h[i] < n
    ensures forall b: nat :: b < n ==> b in h
  {
    var all := seq<nat>(n, i => i);
    StableSort.SameElements(h, all);
    forall b: nat | b < n
      ensures b in h
    {
      assert all[b] == b;
    }
    forall i | 0 <= i < |h|
      ensures h[i] < n
    {
      assert h[i] in all;
    }
  }

  /** The bucket at the heap's root is least. */
  lemma RootIsLeast(bs: seq<Bucket>, h: seq<nat>)
    requires Indices(h, |bs|) && InRange(bs, h) && Heap(bs, h) && |h| > 0
    ensures LeastBucket(bs, h[0])
  {
    IndicesHold(h, |bs|);
    forall k: nat | k < |bs|
      ensures !Less(bs[k], bs[h[0]])
    {
      assert k in h;
      var i :| 0 <= i < |h| && h[i] == k;
      HeapRoot(bs, h, i);
    }
  }

  function Swap(h: seq<nat>, i: nat, j: nat): seq<nat>
    requires i < |h| && j < |h|
  {
    h[i := h[j]][j := h[i]]
  }

  lemma SwapPermutes(h: seq<nat>, i: nat, j: nat)
    requires i < j < |h|
    ensures multiset(Swap(h, i, j)) == multiset(h)
  {
  }

  /** Which position `siftDown` continues at: a strictly smaller child, the smaller of two. */
  predicate Smallest(bs: seq<Bucket>, h: seq<nat>, i: nat, s: nat)
    requires InRange(bs, h) && i < |h|
  {
    && s < |h| && (s == i || s == 2 * i + 1 || s == 2 * i + 2)
    && (s != i ==> Less(bs[h[s]], bs[h[i]]))
    && (2 * i + 1 < |h| ==> !Less(bs[h[2 * i + 1]], bs[h[s]]))
    && (2 * i + 2 < |h| ==> !Less(bs[h[2 * i + 2]], bs[h[s]]))
  }

  lemma SiftStep(bs: seq<Bucket>, h: seq<nat>, i: nat, s: nat)
    requires InRange(bs, h) && i < |h| && HeapBut(bs, h, i) && Smallest(bs, h, i, s)
    ensures s == i ==> Heap(bs, h)
    ensures s != i ==> InRange(bs, Swap(h, i, s)) && HeapBut(bs, Swap(h, i, s), s)
  {
    if s == i {
      forall c | 0 < c < |h|
        ensures NotLess(bs, h, Parent(c), c)
      {
        if Parent(c) == i {
          assert c == 2 * i + 1 || c == 2 * i + 2;
        }
      }
    } else {
      SiftSwap(bs, h, i, s);
    }
  }

  lemma SiftSwap(bs: seq<Bucket>, h: seq<nat>, i: nat, s: nat)
    requires InRange(bs, h) && i < |h| && HeapBut(bs, h, i) && Smallest(bs, h, i, s) && s != i
    ensures InRange(bs, Swap(h, i, s)) && HeapBut(bs, Swap(h, i, s), s)
  {
    var g := Swap(h, i, s);
    assert Parent(s) == i;
    forall c | 0 < c < |g| && Parent(c) != s
      ensures NotLess(bs, g, Parent(c), c)
    {
      var p := Parent(c);
      if p == i {
        assert c == 2 * i + 1 || c == 2 * i + 2;
      } else if c == i {
        assert NotLess(bs, h, p, s);
      } else {
        assert NotLess(bs, h, p, c);
      }
    }
    forall c | 0 < c < |g| && Parent(c) == s
      ensures NotLess(bs, g, Parent(s), c)
    {
      assert NotLess(bs, h, Parent(c), c);
    }
  }

  // ---------------------------------------------------------------- the algorithm

  /** Restore the min-heap property after the bucket at position `start` grew. */
  method SiftDown(buckets: array<Bucket>, heap: array<nat>, start: nat)
    requires InRange(buckets[..], heap[..]) && start < heap.Length
    requires HeapBut(buckets[..], heap[..], start)
    modifies heap
    ensures multiset(heap[..]) == multiset(old(heap[..]))
    ensures InRange(buckets[..], heap[..]) && Heap(buckets[..], heap[..])
  {
    hide Heap, HeapBut;
    ghost var bs := buckets[..];
    var size := heap.Length;
    var index := start;
    while true
      invariant bs == buckets[..] && index < size == heap.Length
      invariant InRange(bs, heap[..]) && HeapBut(bs, heap[..], index)
      invariant multiset(heap[..]) == multiset(old(heap[..]))
      decreases size - index
    {
      var left, right := 2 * index + 1, 2 * index + 2;
      var smallest := index;
      if left < size && Less(buckets[heap[left]], buckets[heap[smallest]]) {
        smallest := left;
      }
      if right < size && Less(buckets[heap[right]], buckets[heap[smallest]]) {
        smallest := right;
      }
      ghost var h := heap[..];
      SiftStep(bs, h, index, smallest);
      if smallest == index {
        return;
      }
      SwapPermutes(h, index, smallest);
      heap[index], heap[smallest] := heap[smallest], heap[index];
      assert heap[..] == Swap(h, index, smallest);
      index := smallest;
    }
  }

  /** `b.weight - a.weight || a.file.localeCompare(b.file)`, up to its sign. */
  function CompareFiles(w: Weights, locale: Collation, a: string, b: string): int {
    if Weight(w, a) < Weight(w, b) then 1
    else if Weight(w, b) < Weight(w, a) then -1
    else locale(a, b)
  }

  function Weighted(files: seq<string>, w: Weights, locale: Collation): seq<string> {
    StableSort.Sort(files, (a, b) => CompareFiles(w, locale, a, b))
  }

  ghost predicate Descending(files: seq<string>, w: Weights) {
    forall i, j :: 0 <= i < j < |files| ==> Weight(w, files[i]) >= Weight(w, files[j])
  }

  lemma WeightedOrdered(files: seq<string>, w: Weights, locale: Collation)
    requires IsCollation(locale)
    ensures var s := Weighted(files, w, locale);
            forall i, j :: 0 <= i < j < |s| ==> CompareFiles(w, locale, s[i], s[j]) <= 0
  {
    var cmp := (a, b) => CompareFiles(w, locale, a, b);
    assert StableSort.Preorder(files, cmp) by {
      forall a, b, c | cmp(a, b) <= 0 && cmp(b, c) <= 0
        ensures cmp(a, c) <= 0
      {
        if Weight(w, a) == Weight(w, b) == Weight(w, c) && a != b && b != c {
          assert locale(a, b) < 0 && locale(b, c) < 0;
        }
      }
    }
    StableSort.SortOrders(files, cmp);
    var s := Weighted(files, w, locale);
    forall i, j | 0 <= i < j < |s|
      ensures CompareFiles(w, locale, s[i], s[j]) <= 0
    {
      assert cmp(s[i], s[j]) <= 0;
    }
  }

  lemma WeightedDescends(files: seq<string>, w: Weights, locale: Collation)
    requires IsCollation(locale)
    ensures multiset(Weighted(files, w, locale)) == multiset(files)
    ensures Descending(Weighted(files, w, locale), w)
  {
    WeightedOrdered(files, w, locale);
    StableSort.SortPermutes(files, (a, b) => CompareFiles(w, locale, a, b));
    var s := Weighted(files, w, locale);
    forall i, j | 0 <= i < j < |s|
      ensures Weight(w, s[i]) >= Weight(w, s[j])
    {
      assert CompareFiles(w, locale, s[i], s[j]) <= 0;
    }
  }

  function Files(bs: seq<Bucket>): seq<seq<string>> {
    seq(|bs|, i requires 0 <= i < |bs| => bs[i].files)
  }

  datatype Assignment = Lists(lists: seq<seq<string>>) | HeapOutOfBounds

  /** The result is what the greedy rule gives on the files in descending order of weight. */
  ghost predicate IsAssignment(files: seq<string>, w: Weights, m: nat, locale: Collation, lists: seq<seq<string>>) {
    exists bs :: Greedy(Weighted(files, w, locale), w, m, bs) && lists == Files(bs)
  }

  /** What the scheduling loop keeps: the buckets are greedy for the files placed so far, and the
      heap holds each bucket once, in heap order. */
  ghost predicate Placed(files: seq<string>, w: Weights, m: nat, bs: seq<Bucket>, h: seq<nat>) {
    Greedy(files, w, m, bs) && |bs| == m && Indices(h, m) && InRange(bs, h) && Heap(bs, h)
  }

  /** One round: the next file goes to the bucket at the heap's root. */
  method PlaceFile(buckets: array<Bucket>, heap: array<nat>, file: string, w: Weights, ghost files: seq<string>)
    requires Placed(files, w, buckets.Length, buckets[..], heap[..]) && heap.Length > 0
    modifies buckets, heap
    ensures Placed(files + [file], w, buckets.Length, buckets[..], heap[..])
  {
    hide Greedy, Heap, HeapBut, Indices;
    ghost var prev, order, m := buckets[..], heap[..], buckets.Length;
    IndicesHold(order, m);
    var top := heap[0];
    assert order[0] == top;
    buckets[top] := Bucket(buckets[top].sum + Weight(w, file), buckets[top].files + [file]);
    assert buckets[..] == Put(prev, top, file, w);
    PlaceKeeps(files, w, m, prev, order, file);
    SiftDown(buckets, heap, 0);
    IndicesKept(order, heap[..], m);
  }

  method AssignWeightedPartitions(files: seq<string>, w: Weights, partitions: nat, locale: Collation)
    returns (r: Assignment)
    ensures r.HeapOutOfBounds? <==> files != [] && partitions == 0
    ensures r.Lists? ==> IsAssignment(files, w, partitions, locale, r.lists)
  {
    if files == [] {
      NothingAssigned(w, partitions, locale);
      return Lists(seq(partitions, _ => []));
    }
    hide Placed, Greedy, Weighted, IsAssignment, Empty;
    var weighted := Weighted(files, w, locale);
    WeightedLength(files, w, locale);
    var buckets := new Bucket[partitions](_ => Bucket(0.0, []));
    var heap := new nat[partitions](i => i);
    assert buckets[..] == Empty(partitions) by {
      EmptyIs(partitions);
    }
    assert heap[..] == seq(partitions, i => i);
    FreshHeap(w, partitions);
    assert weighted[..0] == [];
    for i := 0 to |weighted|
      invariant i > 0 ==> partitions > 0
      invariant Placed(weighted[..i], w, partitions, buckets[..], heap[..])
    {
      if heap.Length == 0 {
        return HeapOutOfBounds;
      }
      PlaceFile(buckets, heap, weighted[i], w, weighted[..i]);
      assert weighted[..i + 1] == weighted[..i] + [weighted[i]];
    }
    assert weighted[..|weighted|] == weighted;
    AssignedBy(files, w, partitions, locale, buckets[..], heap[..]);
    r := Lists(Files(buckets[..]));
  }

  lemma WeightedLength(files: seq<string>, w: Weights, locale: Collation)
    ensures |Weighted(files, w, locale)| == |files|
  {
    StableSort.SortMembers(files, (a, b) => CompareFiles(w, locale, a, b));
  }

  lemma EmptyIs(m: nat)
    ensures |Empty(m)| == m && forall i :: 0 <= i < m ==> Empty(m)[i] == Bucket(0.0, [])
  {
  }

  lemma NothingAssigned(w: Weights, m: nat, locale: Collation)
    ensures IsAssignment([], w, m, locale, seq(m, _ => []))
  {
    assert Greedy([], w, m, Empty(m)) && Weighted([], w, locale) == [];
    assert Files(Empty(m)) == seq(m, _ => []);
  }

  lemma AssignedBy(files: seq<string>, w: Weights, m: nat, locale: Collation, bs: seq<Bucket>, h: seq<nat>)
    requires Placed(Weighted(files, w, locale), w, m, bs, h)
    ensures IsAssignment(files, w, m, locale, Files(bs))
  {
  }

  /** Giving the next file to the root's bucket is a greedy step, and breaks heap order nowhere but
      below the root. */
  lemma PlaceKeeps(files: seq<string>, w: Weights, m: nat, prev: seq<Bucket>, h: seq<nat>, file: string)
    requires Placed(files, w, m, prev, h) && |h| > 0
    ensures var bs := Put(prev, h[0], file, w);
            Greedy(files + [file], w, m, bs) && InRange(bs, h) && HeapBut(bs, h, 0)
  {
    hide Greedy, Heap, HeapBut, Indices, LeastBucket;
    var bs := Put(prev, h[0], file, w);
    IndicesHold(h, m);
    RootIsLeast(prev, h);
    GreedyAppend(files, w, m, prev, h[0], file, bs);
    RootGrew(prev, bs, h);
  }

  lemma FreshHeap(w: Weights, m: nat)
    ensures Placed([], w, m, Empty(m), seq<nat>(m, i => i))
  {
  }

  lemma IndicesKept(h: seq<nat>, g: seq<nat>, m: nat)
    requires Indices(h, m) && multiset(h) == multiset(g)
    ensures Indices(g, m)
  {
  }

  lemma GreedyAppend(files: seq<string>, w: Weights, m: nat, prev: seq<Bucket>, b: nat, file: string, bs: seq<Bucket>)
    requires Greedy(files, w, m, prev) && GreedyStep(prev, b, file, w, bs)
    ensures Greedy(files + [file], w, m, bs)
  {
    var all := files + [file];
    assert Init(all) == files && Last(all) == file;
  }

  /** Changing the root's bucket leaves heap order everywhere else. */
  lemma RootGrew(prev: seq<Bucket>, bs: seq<Bucket>, h: seq<nat>)
    requires |h| > 0 && Indices(h, |prev|) && InRange(prev, h) && Heap(prev, h)
    requires |bs| == |prev| && forall k :: 0 <= k < |bs| && k != h[0] ==> bs[k] == prev[k]
    ensures InRange(bs, h) && HeapBut(bs, h, 0)
  {
    forall c | 0 < c < |h| && Parent(c) != 0
      ensures NotLess(bs, h, Parent(c), c)
    {
      assert NotLess(prev, h, Parent(c), c);
      IndicesDistinct(h, |prev|, 0, c);
      IndicesDistinct(h, |prev|, 0, Parent(c));
    }
  }

  lemma IndicesDistinct(h: seq<nat>, n: nat, i: nat, j: nat)
    requires Indices(h, n) && i < j < |h|
    ensures h[i] != h[j]
  {
    var all := seq<nat>(n, k => k);
    IndicesHold(h, n);
    var v := h[i];
    assert all == all[..v] + [v] + all[v + 1..];
    assert v !in all[..v] && v !in all[v + 1..];
    assert multiset(all)[v] == 1;
    assert h == h[..i] + [h[i]] + h[i + 1..j] + [h[j]] + h[j + 1..];
  }
}
