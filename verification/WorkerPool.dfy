/** `mapConcurrent` of `scripts/benchmark-next-package-dependency.ts`: workers that share a cursor
    and a result array, under every interleaving of their asynchronous steps. */
module WorkerPool {
  import opened Numbers

  /** At its loop test (only before its first), awaiting the operation on one index, or returned. */
  datatype Worker = AtLoop | Awaiting(index: nat) | Returned

  /** The shared variables, the workers, and the order in which indices were taken. */
  datatype State<R> = State(next: nat, results: map<nat, R>, workers: seq<Worker>, taken: seq<nat>)

  function Start<R>(n: nat, jobs: nat): State<R> {
    State(0, map[], seq(Min(jobs, n), _ => AtLoop), [])
  }

  /** The loop test of worker `w`: it takes the next index and awaits its operation, or returns. */
  function Take<R>(n: nat, s: State<R>, w: nat): State<R>
    requires w < |s.workers|
  {
    if s.next < n then State(s.next + 1, s.results, s.workers[w := Awaiting(s.next)], s.taken + [s.next])
    else s.(workers := s.workers[w := Returned])
  }

  /** The operation of worker `w` has yielded: its result is stored. */
  function Store<T, R>(values: seq<T>, op: T -> R, s: State<R>, w: nat): State<R>
    requires w < |s.workers| && s.workers[w].Awaiting?
  {
    var i := s.workers[w].index;
    s.(results := if i < |values| then s.results[i := op(values[i])] else s.results,
       workers := s.workers[w := AtLoop])
  }

  /** Worker `w` runs from one suspension to the next: once its operation has yielded it stores the
      result and goes on to the loop test without letting another worker run. */
  function Advance<T, R>(values: seq<T>, op: T -> R, s: State<R>, w: nat): State<R>
    requires w < |s.workers|
  {
    match s.workers[w]
    case AtLoop => Take(|values|, s, w)
    case Awaiting(_) => Take(|values|, Store(values, op, s, w), w)
    case Returned => s
  }

  ghost predicate Step<T(!new), R(!new)>(values: seq<T>, op: T -> R, s: State<R>, t: State<R>) {
    exists w :: 0 <= w < |s.workers| && s.workers[w] != Returned && t == Advance(values, op, s, w)
  }

  /** A run: any worker that has not returned may move next, any number of times. */
  ghost predicate Run<T(!new), R(!new)>(values: seq<T>, jobs: nat, op: T -> R, trace: seq<State<R>>) {
    && trace != [] && trace[0] == Start(|values|, jobs)
    && forall i {:trigger Moves(values, op, trace, i)} :: 0 <= i < |trace| - 1 ==> Moves(values, op, trace, i)
  }

  ghost predicate Moves<T(!new), R(!new)>(values: seq<T>, op: T -> R, trace: seq<State<R>>, i: nat)
    requires i + 1 < |trace|
  {
    Step(values, op, trace[i], trace[i + 1])
  }

  predicate AllReturned<R>(s: State<R>) {
    forall w :: 0 <= w < |s.workers| ==> s.workers[w] == Returned
  }

  ghost predicate InFlight<R>(s: State<R>, i: nat) {
    exists w :: 0 <= w < |s.workers| && s.workers[w] == Awaiting(i)
  }

  /** What every reachable state satisfies. */
  ghost predicate Inv<T(!new), R(!new)>(values: seq<T>, jobs: nat, op: T -> R, s: State<R>) {
    && s.next <= |values|
    && |s.workers| == Min(jobs, |values|)
    && (s.workers == [] ==> s.next == 0)
    && s.taken == seq(s.next, i => i)
    && (forall v, w :: 0 <= v < w < |s.workers| && s.workers[v].Awaiting? && s.workers[w].Awaiting? ==>
        s.workers[v].index != s.workers[w].index)
    && (forall i :: i in s.results ==> i < s.next && s.results[i] == op(values[i]) && !InFlight(s, i))
    && (forall w :: 0 <= w < |s.workers| && s.workers[w].Awaiting? ==> s.workers[w].index < s.next)
    && (forall i: nat :: i < s.next ==> i in s.results || InFlight(s, i))
    && (forall w :: 0 <= w < |s.workers| && s.workers[w].Returned? ==> s.next == |values|)
  }

  lemma FlightsAfter<R>(s: State<R>, workers: seq<Worker>, w: nat, i: nat)
    requires w < |s.workers| && |workers| == |s.workers|
    requires forall v :: 0 <= v < |workers| && v != w ==> workers[v] == s.workers[v]
    ensures InFlight(s.(workers := workers), i) <==>
      || workers[w] == Awaiting(i)
      || exists v :: 0 <= v < |workers| && v != w && s.workers[v] == Awaiting(i)
  {
  }

  lemma TakeKeeps<T(!new), R(!new)>(values: seq<T>, jobs: nat, op: T -> R, s: State<R>, w: nat)
    requires Inv(values, jobs, op, s) && w < |s.workers| && s.workers[w].AtLoop?
    ensures Inv(values, jobs, op, Take(|values|, s, w))
  {
    var t := Take(|values|, s, w);
    forall i: nat
      ensures InFlight(t, i) <==> InFlight(s, i) || (s.next < |values| && i == s.next)
    {
      FlightsAfter(s, t.workers, w, i);
      FlightsAfter(s, s.workers, w, i);
      assert InFlight(t, i) <==> InFlight(s.(workers := t.workers), i);
    }
  }

  lemma StoreKeeps<T(!new), R(!new)>(values: seq<T>, jobs: nat, op: T -> R, s: State<R>, w: nat)
    requires Inv(values, jobs, op, s) && w < |s.workers| && s.workers[w].Awaiting?
    ensures Inv(values, jobs, op, Store(values, op, s, w))
  {
    var t := Store(values, op, s, w);
    var k := s.workers[w].index;
    forall i: nat
      ensures InFlight(t, i) <==> InFlight(s, i) && i != k
    {
      FlightsAfter(s, t.workers, w, i);
      FlightsAfter(s, s.workers, w, i);
      assert InFlight(t, i) <==> InFlight(s.(workers := t.workers), i);
      forall v | 0 <= v < |s.workers| && v != w && s.workers[v] == Awaiting(i)
        ensures i != k
      {
        assert v < w || w < v;
      }
    }
  }

  lemma StepKeeps<T(!new), R(!new)>(values: seq<T>, jobs: nat, op: T -> R, s: State<R>, t: State<R>)
    requires Inv(values, jobs, op, s) && Step(values, op, s, t)
    ensures Inv(values, jobs, op, t)
  {
    var w :| 0 <= w < |s.workers| && s.workers[w] != Returned && t == Advance(values, op, s, w);
    if s.workers[w].AtLoop? {
      TakeKeeps(values, jobs, op, s, w);
    } else {
      StoreKeeps(values, jobs, op, s, w);
      TakeKeeps(values, jobs, op, Store(values, op, s, w), w);
    }
  }

  /** In every state of every run: indices are taken once each, in order; at most `min(jobs, n)`
      operations are in flight, no two on one index; every result is its own index's. */
  lemma {:induction false} EveryState<T(!new), R(!new)>(values: seq<T>, jobs: nat, op: T -> R, trace: seq<State<R>>,
          i: nat)
    requires Run(values, jobs, op, trace) && i < |trace|
    ensures Inv(values, jobs, op, trace[i])
  {
    if i > 0 {
      EveryState(values, jobs, op, trace, i - 1);
      assert Moves(values, op, trace, i - 1);
      StepKeeps(values, jobs, op, trace[i - 1], trace[i]);
    }
  }

  /** When every worker has returned, the results are complete exactly if there was a worker. */
  lemma CompleteIff<T(!new), R(!new)>(values: seq<T>, jobs: nat, op: T -> R, s: State<R>)
    requires Inv(values, jobs, op, s) && AllReturned(s)
    ensures (forall i: nat :: i < |values| ==> i in s.results && s.results[i] == op(values[i])) <==>
        jobs > 0 || values == []
    ensures forall i :: i in s.results ==> i < |values|
  {
    if jobs > 0 && values != [] {
      assert s.workers[0] == Returned;
    } else if values != [] {
      assert 0 !in s.results;
    }
  }

  /** Work left: each move lowers it, so every run ends. */
  function Left(workers: seq<Worker>): nat {
    if workers == [] then 0 else
      Left(workers[..|workers| - 1]) +
        match workers[|workers| - 1]
        case Returned => 0
        case _ => 1
  }

  lemma {:induction false} LeftUpdate(workers: seq<Worker>, w: nat, x: Worker)
    requires w < |workers|
    ensures Left(workers[w := x]) + Left([workers[w]]) == Left(workers) + Left([x])
  {
    var n := |workers| - 1;
    assert [x][..0] == [] && [workers[w]][..0] == [];
    if w == n {
      assert workers[w := x][..n] == workers[..n];
    } else {
      assert workers[w := x][..n] == workers[..n][w := x];
      LeftUpdate(workers[..n], w, x);
    }
  }

  function Measure<R>(n: nat, s: State<R>): nat {
    (if s.next < n then n - s.next else 0) + Left(s.workers)
  }

  /** No worker waits for another: a run either is over or can move, and it moves boundedly often. */
  lemma MoveLowers<T(!new), R(!new)>(values: seq<T>, op: T -> R, s: State<R>, w: nat)
    requires w < |s.workers| && s.workers[w] != Returned
    ensures Measure(|values|, Advance(values, op, s, w)) < Measure(|values|, s)
  {
    var t := Advance(values, op, s, w);
    assert t.workers == s.workers[w := t.workers[w]];
    LeftUpdate(s.workers, w, t.workers[w]);
    assert [t.workers[w]][..0] == [] && [s.workers[w]][..0] == [];
  }

  lemma {:induction false} RunIsBounded<T(!new), R(!new)>(values: seq<T>, jobs: nat, op: T -> R, trace: seq<State<R>>,
          i: nat)
    requires Run(values, jobs, op, trace) && i < |trace|
    ensures i + Measure(|values|, trace[i]) <= Measure(|values|, Start<R>(|values|, jobs))
  {
    if i > 0 {
      RunIsBounded(values, jobs, op, trace, i - 1);
      assert Moves(values, op, trace, i - 1);
      var s := trace[i - 1];
      var w :| 0 <= w < |s.workers| && s.workers[w] != Returned && trace[i] == Advance(values, op, s, w);
      MoveLowers(values, op, s, w);
    }
  }

  /** The pool's shared variables; `Resume` is one worker from a suspension to its next, uninterrupted. */
  class Pool<T, R(!new)> {
    const values: seq<T>
    const operation: T -> R
    var next: nat
    var results: map<nat, R>
    var workers: seq<Worker>
    ghost var taken: seq<nat>

    constructor (values: seq<T>, jobs: nat, operation: T -> R)
      ensures this.values == values && this.operation == operation
      ensures Now() == Start(|values|, jobs)
    {
      this.values, this.operation := values, operation;
      next, results, workers, taken := 0, map[], seq(Min(jobs, |values|), _ => AtLoop), [];
    }

    ghost function Now(): State<R>
      reads this
    {
      State(next, results, workers, taken)
    }

    /** The loop test and what follows it up to the next suspension. */
    method TakeNext(w: nat)
      requires w < |workers|
      modifies this
      ensures Now() == Take(|values|, old(Now()), w)
    {
      if next < |values| {
        var index := next;
        next := next + 1;
        taken := taken + [index];
        workers := workers[w := Awaiting(index)];
      } else {
        workers := workers[w := Returned];
      }
    }

    method Resume(w: nat)
      requires w < |workers|
      requires workers[w].Awaiting? ==> workers[w].index < |values|
      modifies this
      ensures Now() == Advance(values, operation, old(Now()), w)
    {
      match workers[w]
      case AtLoop => TakeNext(w);
      case Awaiting(index) =>
        results := results[index := operation(values[index])];
        workers := workers[w := AtLoop];
        TakeNext(w);
      case Returned =>
    }
  }

  /** Any schedule: at each turn some worker that has not returned is resumed. */
  method MapConcurrent<T(!new), R(!new)>(values: seq<T>, jobs: nat, operation: T -> R) returns (results: map<nat, R>)
    ensures jobs > 0 || values == [] ==> forall i: nat :: i < |values| ==>
        i in results && results[i] == operation(values[i])
    ensures forall i :: i in results ==> i < |values|
  {
    var p := new Pool(values, jobs, operation);
    while exists w :: 0 <= w < |p.workers| && p.workers[w] != Returned
      invariant p.values == values && p.operation == operation
      invariant Inv(values, jobs, operation, p.Now())
      decreases Measure(|values|, p.Now())
    {
      var w :| 0 <= w < |p.workers| && p.workers[w] != Returned;
      ghost var before := p.Now();
      MoveLowers(values, operation, before, w);
      p.Resume(w);
      assert Step(values, operation, before, p.Now());
      StepKeeps(values, jobs, operation, before, p.Now());
    }
    CompleteIff(values, jobs, operation, p.Now());
    results := p.results;
  }
}
