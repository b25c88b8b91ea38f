/**
 * The bookkeeping around the thread pool of `processar_lista_musicas` in
 * main.py (lines 99-112): one future per queued item, drained with
 * `as_completed` in whatever order the jobs finish, and every item whose job
 * did not succeed appended to the failure list.
 *
 * A run is described by the queue, the outcome of each job by queue index
 * (`results`), and the completion order (`order`, a sequence of queue
 * indices). What the pool records depends on the order only through the
 * order of the failure list, which the lemmas below make precise.
 */
module Pool {

  /** How one job ends, as `future.result()` reports it: True, False, or an exception. */
  datatype Outcome = Ok | Fail | Raised

  /**
   * An order in which `as_completed` can hand back the futures of `n`
   * submitted jobs: every job exactly once.
   */
  predicate IsCompletionOrder(order: seq<nat>, n: nat) {
    (forall j :: 0 <= j < |order| ==> order[j] < n)
    && (forall j, j' :: 0 <= j < j' < |order| ==> order[j] != order[j'])
    && (forall k :: 0 <= k < n ==> k in order)
  }

  /** Item `k` when its job did not succeed. */
  function Failing<T>(queue: seq<T>, results: seq<Outcome>, k: nat): seq<T>
    requires |results| == |queue| && k < |queue|
  {
    if results[k] != Ok then [queue[k]] else []
  }

  /** Item `k` when its job succeeded. */
  function Passing<T>(queue: seq<T>, results: seq<Outcome>, k: nat): seq<T>
    requires |results| == |queue| && k < |queue|
  {
    if results[k] != Ok then [] else [queue[k]]
  }

  /** The items the pool appends to the failure list, in completion order. */
  function Unresolved<T>(queue: seq<T>, results: seq<Outcome>, order: seq<nat>): seq<T>
    requires |results| == |queue|
    requires forall j :: 0 <= j < |order| ==> order[j] < |queue|
  {
    if order == [] then []
    else Unresolved(queue, results, order[..|order| - 1]) + Failing(queue, results, order[|order| - 1])
  }

  /** The items among the first `n` queued whose job did not succeed, in submission order. */
  function FailedJobs<T>(queue: seq<T>, results: seq<Outcome>, n: nat): seq<T>
    requires |results| == |queue| && n <= |queue|
  {
    if n == 0 then [] else FailedJobs(queue, results, n - 1) + Failing(queue, results, n - 1)
  }

  /** The items among the first `n` queued whose job succeeded, in submission order. */
  function SucceededJobs<T>(queue: seq<T>, results: seq<Outcome>, n: nat): seq<T>
    requires |results| == |queue| && n <= |queue|
  {
    if n == 0 then [] else SucceededJobs(queue, results, n - 1) + Passing(queue, results, n - 1)
  }

  /** The items among the first `n` queued whose index is in `done` and whose job did not succeed. */
  function FailedAmong<T>(queue: seq<T>, results: seq<Outcome>, done: set<nat>, n: nat): seq<T>
    requires |results| == |queue| && n <= |queue|
  {
    if n == 0 then [] else FailedAmong(queue, results, done, n - 1) + Recorded(queue, results, done, n - 1)
  }

  /** What job `k` has contributed to the failure list once the jobs in `done` have completed. */
  function Recorded<T>(queue: seq<T>, results: seq<Outcome>, done: set<nat>, k: nat): seq<T>
    requires |results| == |queue| && k < |queue|
  {
    if k in done then Failing(queue, results, k) else []
  }

  /** The job indices that `order` mentions. */
  function Done(order: seq<nat>): (r: set<nat>)
    ensures forall k :: k in r <==> k in order
  {
    if order == [] then {} else Done(order[..|order| - 1]) + {order[|order| - 1]}
  }

  /**
   * The `as_completed` loop: the futures are drained in whatever order they
   * complete, and the item of every future whose job returned False or
   * raised is appended to the failure list. The order the pool happened to
   * use is returned with the list.
   */
  method Drain<T>(queue: seq<T>, futures: seq<Outcome>) returns (unresolved: seq<T>, order: seq<nat>)
    requires |futures| == |queue|
    ensures IsCompletionOrder(order, |queue|)
    ensures unresolved == Unresolved(queue, futures, order)
  {
    var futureToItem := map k | 0 <= k < |queue| :: queue[k];
    var pending := futureToItem.Keys;
    unresolved, order := [], [];
    while pending != {}
      invariant pending <= futureToItem.Keys
      invariant forall j :: 0 <= j < |order| ==> order[j] < |queue| && order[j] !in pending
      invariant forall j, j' :: 0 <= j < j' < |order| ==> order[j] != order[j']
      invariant forall k :: 0 <= k < |queue| ==> k in pending || k in order
      invariant unresolved == Unresolved(queue, futures, order)
      decreases |pending|
    {
      var future :| future in pending;
      pending := pending - {future};
      var item := futureToItem[future];
      assert (order + [future])[..|order|] == order;
      order := order + [future];
      match futures[future]
      case Ok =>
      case Fail =>
        unresolved := unresolved + [item];
      case Raised =>
        unresolved := unresolved + [item];
    }
  }

  // ------------------------------------------------------------ multiset steps

  lemma AppendSame<T>(x: seq<T>, y: seq<T>, c: seq<T>, r: seq<T>)
    requires multiset(x) == multiset(y) + multiset(c)
    ensures multiset(x + r) == multiset(y + r) + multiset(c)
  {
  }

  lemma AppendOne<T>(x: seq<T>, r: seq<T>)
    ensures multiset(x + r) == multiset(x + []) + multiset(r)
  {
    assert x + [] == x;
  }

  /** Adding one item to exactly one side of a partition keeps it a partition. */
  lemma PartitionStep<T>(f: seq<T>, g: seq<T>, p: seq<T>, a: seq<T>, b: seq<T>, x: T)
    requires multiset(f) + multiset(g) == multiset(p)
    requires (a == [x] && b == []) || (a == [] && b == [x])
    ensures multiset(f + a) + multiset(g + b) == multiset(p + [x])
  {
  }

  lemma SplitStep<T>(q: seq<T>, n: nat, f: seq<T>, g: seq<T>, a: seq<T>, b: seq<T>)
    requires 0 < n <= |q|
    requires multiset(f) + multiset(g) == multiset(q[..n - 1])
    requires (a == [q[n - 1]] && b == []) || (a == [] && b == [q[n - 1]])
    ensures multiset(f + a) + multiset(g + b) == multiset(q[..n])
  {
    assert q[..n] == q[..n - 1] + [q[n - 1]];
    PartitionStep(f, g, q[..n - 1], a, b, q[n - 1]);
  }

  // ------------------------------------------------------------ lemmas

  lemma {:induction false} FailedAmongNone<T>(queue: seq<T>, results: seq<Outcome>, n: nat)
    requires |results| == |queue| && n <= |queue|
    ensures FailedAmong(queue, results, {}, n) == []
  {
    if n > 0 {
      FailedAmongNone(queue, results, n - 1);
    }
  }

  lemma {:induction false} FailedAmongAll<T>(queue: seq<T>, results: seq<Outcome>, done: set<nat>, n: nat)
    requires |results| == |queue| && n <= |queue|
    requires forall k :: 0 <= k < n ==> k in done
    ensures FailedAmong(queue, results, done, n) == FailedJobs(queue, results, n)
  {
    if n > 0 {
      FailedAmongAll(queue, results, done, n - 1);
    }
  }

  /** Marking one more job as done adds its contribution and changes nothing else. */
  lemma {:induction false} FailedAmongAdd<T>(queue: seq<T>, results: seq<Outcome>, done: set<nat>, done': set<nat>, k: nat, n: nat)
    requires |results| == |queue| && n <= |queue| && k < |queue|
    requires forall i :: i in done' <==> i in done || i == k
    requires k !in done
    ensures n <= k ==> FailedAmong(queue, results, done', n) == FailedAmong(queue, results, done, n)
    ensures k < n ==>
      multiset(FailedAmong(queue, results, done', n))
      == multiset(FailedAmong(queue, results, done, n)) + multiset(Failing(queue, results, k))
  {
    if n > 0 {
      var i := n - 1;
      FailedAmongAdd(queue, results, done, done', k, i);
      var before, after := FailedAmong(queue, results, done, i), FailedAmong(queue, results, done', i);
      var r, r' := Recorded(queue, results, done, i), Recorded(queue, results, done', i);
      if i < k {
        assert r' == r;
      } else if i == k {
        assert r == [];
        AppendOne(before, r');
      } else {
        assert r' == r;
        AppendSame(after, before, Failing(queue, results, k), r);
      }
    }
  }

  lemma {:induction false} UnresolvedAsFailedAmong<T>(queue: seq<T>, results: seq<Outcome>, order: seq<nat>)
    requires |results| == |queue|
    requires forall j :: 0 <= j < |order| ==> order[j] < |queue|
    requires forall j, j' :: 0 <= j < j' < |order| ==> order[j] != order[j']
    ensures multiset(Unresolved(queue, results, order)) == multiset(FailedAmong(queue, results, Done(order), |queue|))
  {
    if order != [] {
      var init, k := order[..|order| - 1], order[|order| - 1];
      UnresolvedAsFailedAmong(queue, results, init);
      assert k !in init;
      FailedAmongAdd(queue, results, Done(init), Done(order), k, |queue|);
      AppendSame(Unresolved(queue, results, init), FailedAmong(queue, results, Done(init), |queue|), [], Failing(queue, results, k));
    } else {
      FailedAmongNone(queue, results, |queue|);
    }
  }

  /**
   * The completion order changes only the order of the failure list: in
   * any order in which every job completes once, the pool records exactly
   * the items of the jobs that did not succeed, each as often as it was
   * queued.
   */
  lemma UnresolvedIgnoresOrder<T>(queue: seq<T>, results: seq<Outcome>, order: seq<nat>)
    requires |results| == |queue| && IsCompletionOrder(order, |queue|)
    ensures multiset(Unresolved(queue, results, order)) == multiset(FailedJobs(queue, results, |queue|))
  {
    UnresolvedAsFailedAmong(queue, results, order);
    FailedAmongAll(queue, results, Done(order), |queue|);
  }

  /** The pool records an item exactly when its job did not succeed. */
  lemma {:induction false} UnresolvedAreFailures<T>(queue: seq<T>, results: seq<Outcome>, order: seq<nat>)
    requires |results| == |queue|
    requires forall j :: 0 <= j < |order| ==> order[j] < |queue|
    ensures forall x :: x in Unresolved(queue, results, order) ==> exists k :: 0 <= k < |queue| && queue[k] == x && results[k] != Ok
    ensures forall j :: 0 <= j < |order| && results[order[j]] != Ok ==> queue[order[j]] in Unresolved(queue, results, order)
  {
    if order != [] {
      UnresolvedAreFailures(queue, results, order[..|order| - 1]);
    }
  }

  /** Each queued item's job either succeeds or does not. */
  lemma {:induction false} JobsSucceedOrFail<T>(queue: seq<T>, results: seq<Outcome>, n: nat)
    requires |results| == |queue| && n <= |queue|
    ensures multiset(FailedJobs(queue, results, n)) + multiset(SucceededJobs(queue, results, n)) == multiset(queue[..n])
  {
    if n > 0 {
      JobsSucceedOrFail(queue, results, n - 1);
      SplitStep(queue, n, FailedJobs(queue, results, n - 1), SucceededJobs(queue, results, n - 1),
        Failing(queue, results, n - 1), Passing(queue, results, n - 1));
    }
  }

  /** Every queued item's job either succeeds or does not, and not both. */
  lemma JobsPartitionQueue<T>(queue: seq<T>, results: seq<Outcome>)
    requires |results| == |queue|
    ensures multiset(FailedJobs(queue, results, |queue|)) + multiset(SucceededJobs(queue, results, |queue|)) == multiset(queue)
  {
    JobsSucceedOrFail(queue, results, |queue|);
    assert queue[..|queue|] == queue;
  }

  /** When every job succeeds, the pool records nothing. */
  lemma {:induction false} NoFailuresWhenAllSucceed<T>(queue: seq<T>, results: seq<Outcome>, order: seq<nat>)
    requires |results| == |queue|
    requires forall j :: 0 <= j < |order| ==> order[j] < |queue| && results[order[j]] == Ok
    ensures Unresolved(queue, results, order) == []
  {
    if order != [] {
      NoFailuresWhenAllSucceed(queue, results, order[..|order| - 1]);
    }
  }

  /** When every job fails, none succeeded. */
  lemma {:induction false} NoSuccessesWhenAllFail<T>(queue: seq<T>, results: seq<Outcome>, n: nat)
    requires |results| == |queue| && n <= |queue|
    requires forall k :: 0 <= k < |queue| ==> results[k] != Ok
    ensures SucceededJobs(queue, results, n) == []
  {
    if n > 0 {
      NoSuccessesWhenAllFail(queue, results, n - 1);
    }
  }
}
