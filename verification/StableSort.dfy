/** The string order of the host, abstract. */
module Locale {
  /** `String.prototype.localeCompare`, abstract up to what the script needs of it. */
  type Collation = (string, string) -> int

  ghost predicate IsCollation(c: Collation) {
    && (forall a, b :: c(a, b) == 0 <==> a == b)
    && (forall a, b :: c(a, b) < 0 <==> c(b, a) > 0)
    && (forall x, y, z :: c(x, y) < 0 && c(y, z) < 0 ==> c(x, z) < 0)
  }
}

/** `Array.prototype.sort` with a comparison function: a stable sort, here by insertion. */
module StableSort {

  function Insert<T>(x: T, s: seq<T>, cmp: (T, T) -> int): seq<T> {
    if s == [] || cmp(x, s[0]) <= 0 then [x] + s else [s[0]] + Insert(x, s[1..], cmp)
  }

  function Sort<T>(xs: seq<T>, cmp: (T, T) -> int): seq<T> {
    if xs == [] then [] else Insert(xs[0], Sort(xs[1..], cmp), cmp)
  }

  /** What a comparison function must be on the sorted values for `sort` to order them. */
  ghost predicate Preorder<T(!new)>(xs: seq<T>, cmp: (T, T) -> int) {
    && (forall a, b :: a in xs && b in xs ==> cmp(a, b) <= 0 || cmp(b, a) <= 0)
    && (forall a, b, c :: a in xs && b in xs && c in xs && cmp(a, b) <= 0 && cmp(b, c) <= 0 ==> cmp(a, c) <= 0)
  }

  ghost predicate Ordered<T>(s: seq<T>, cmp: (T, T) -> int) {
    forall i, j :: 0 <= i < j < |s| ==> cmp(s[i], s[j]) <= 0
  }

  lemma {:induction false} InsertPermutes<T>(x: T, s: seq<T>, cmp: (T, T) -> int)
    ensures multiset(Insert(x, s, cmp)) == multiset(s) + multiset{x}
  {
    if !(s == [] || cmp(x, s[0]) <= 0) {
      InsertPermutes(x, s[1..], cmp);
      assert s == [s[0]] + s[1..];
    }
  }

  lemma {:induction false} SortPermutes<T>(xs: seq<T>, cmp: (T, T) -> int)
    ensures multiset(Sort(xs, cmp)) == multiset(xs)
  {
    if xs != [] {
      SortPermutes(xs[1..], cmp);
      InsertPermutes(xs[0], Sort(xs[1..], cmp), cmp);
      assert xs == [xs[0]] + xs[1..];
    }
  }

  lemma SameElements<T>(s: seq<T>, t: seq<T>)
    requires multiset(s) == multiset(t)
    ensures |s| == |t| && forall x :: x in s <==> x in t
  {
    assert |s| == |multiset(s)| == |multiset(t)| == |t|;
    forall x
      ensures x in s <==> x in t
    {
      assert x in s <==> x in multiset(s);
      assert x in t <==> x in multiset(t);
    }
  }

  lemma SortMembers<T>(xs: seq<T>, cmp: (T, T) -> int)
    ensures |Sort(xs, cmp)| == |xs| && forall x :: x in Sort(xs, cmp) <==> x in xs
  {
    SortPermutes(xs, cmp);
    SameElements(Sort(xs, cmp), xs);
  }

  lemma ConsOrdered<T>(x: T, s: seq<T>, cmp: (T, T) -> int)
    requires Ordered(s, cmp) && forall y :: y in s ==> cmp(x, y) <= 0
    ensures Ordered([x] + s, cmp)
  {
  }

  lemma HeadLeast<T(!new)>(x: T, s: seq<T>, cmp: (T, T) -> int, y: T)
    requires Preorder([x] + s, cmp) && Ordered(s, cmp)
    requires s != [] && cmp(x, s[0]) <= 0 && y in s
    ensures cmp(x, y) <= 0
  {
    var k :| 0 <= k < |s| && s[k] == y;
    if k > 0 {
      assert cmp(s[0], s[k]) <= 0;
      assert x in [x] + s && s[0] in [x] + s && y in [x] + s;
    }
  }

  lemma {:induction false} InsertOrders<T(!new)>(x: T, s: seq<T>, cmp: (T, T) -> int)
    requires Preorder([x] + s, cmp) && Ordered(s, cmp)
    ensures Ordered(Insert(x, s, cmp), cmp)
  {
    if s == [] {
    } else if cmp(x, s[0]) <= 0 {
      forall y | y in s
        ensures cmp(x, y) <= 0
      {
        HeadLeast(x, s, cmp, y);
      }
      ConsOrdered(x, s, cmp);
    } else {
      InsertRest(x, s, cmp);
      InsertOrders(x, s[1..], cmp);
      ConsOrdered(s[0], Insert(x, s[1..], cmp), cmp);
    }
  }

  lemma InsertRest<T(!new)>(x: T, s: seq<T>, cmp: (T, T) -> int)
    requires Preorder([x] + s, cmp) && Ordered(s, cmp) && s != [] && cmp(x, s[0]) > 0
    ensures Preorder([x] + s[1..], cmp) && Ordered(s[1..], cmp)
    ensures forall y :: y in Insert(x, s[1..], cmp) ==> cmp(s[0], y) <= 0
  {
    PreorderOn([x] + s, [x] + s[1..], cmp);
    HeadFirst(x, s, cmp);
    InsertMembers(x, s[1..], cmp);
    hide Preorder, Insert;
    forall y | y in s[1..]
      ensures cmp(s[0], y) <= 0
    {
      var k :| 0 < k < |s| && s[k] == y;
    }
  }

  lemma HeadFirst<T(!new)>(x: T, s: seq<T>, cmp: (T, T) -> int)
    requires Preorder([x] + s, cmp) && s != [] && cmp(x, s[0]) > 0
    ensures cmp(s[0], x) <= 0
  {
    assert x in [x] + s && s[0] in [x] + s;
  }

  lemma InsertMembers<T>(x: T, s: seq<T>, cmp: (T, T) -> int)
    ensures forall y :: y in Insert(x, s, cmp) <==> y == x || y in s
  {
    InsertPermutes(x, s, cmp);
    assert multiset(s) + multiset{x} == multiset(s + [x]);
    SameElements(Insert(x, s, cmp), s + [x]);
  }

  lemma {:induction false} SortOrders<T(!new)>(xs: seq<T>, cmp: (T, T) -> int)
    requires Preorder(xs, cmp)
    ensures Ordered(Sort(xs, cmp), cmp)
  {
    if xs != [] {
      PreorderOn(xs, xs[1..], cmp);
      SortOrders(xs[1..], cmp);
      SortMembers(xs[1..], cmp);
      PreorderOn(xs, [xs[0]] + Sort(xs[1..], cmp), cmp);
      InsertOrders(xs[0], Sort(xs[1..], cmp), cmp);
    }
  }

  lemma PreorderOn<T(!new)>(xs: seq<T>, ys: seq<T>, cmp: (T, T) -> int)
    requires Preorder(xs, cmp) && forall y :: y in ys ==> y in xs
    ensures Preorder(ys, cmp)
  {
  }
}
