/**
 * The dispatcher of prog/loadbalancer.rs.  Each turn of its endless loop
 * handles one event: a new request, or the completion of a request by the
 * worker with a given id.  Which event comes next is decided by channels and
 * threads outside this model, so events arrive as arguments of `Step`.
 *
 * Two policies are modelled, each as a class owning the worker array:
 * least-loaded (`dispatch`), which routes to the front of a pool kept sorted
 * by load, and round-robin (`dispatch_rr`), which routes by a cursor over a
 * pool that never moves.
 */
module LoadBalancer {
  import opened Wrappers
  import opened Workers

  /** What the dispatcher's `select!` hands over on one turn. */
  datatype Event = Request | Done(id: nat)

  /** `main`'s pool: `Worker::new(id, ..)` pushed for id in 0..n, each with no pending work. */
  method BuildPool(n: nat) returns (workers: array<Worker>)
    ensures fresh(workers)
    ensures workers.Length == n && IsFreshPool(workers[..])
  {
    workers := new Worker[n];
    for id := 0 to n
      invariant forall k :: 0 <= k < id ==> workers[k] == Worker(k, 0)
    {
      workers[id] := Worker(id, 0);
    }
  }

  /** The integer half of `print`: the sum and the sum of squares of the pending counts. */
  method Stats(workers: array<Worker>) returns (sum: nat, sumsq: nat)
    ensures sum == Load(workers[..])
    ensures sumsq == SquareLoad(workers[..])
  {
    sum, sumsq := 0, 0;
    for i := 0 to workers.Length
      invariant sum == Load(workers[..i])
      invariant sumsq == SquareLoad(workers[..i])
    {
      assert workers[..i + 1][..i] == workers[..i];
      sum := sum + workers[i].pending;
      sumsq := sumsq + workers[i].pending * workers[i].pending;
    }
    assert workers[..] == workers[..workers.Length];
  }

  /**
   * Loads 2, 2, 2, 2 give mean 8/4 = 2 and variance 16/4 - 2^2 = 0; loads
   * 0, 1, 2, 3 give mean 6/4 = 1.5 and variance 14/4 - 1.5^2 = 1.25, that is
   * n * sumsq - sum^2 = 20 = 16 * 1.25.
   */
  lemma StatsExamples()
    ensures var s := [Worker(0, 2), Worker(1, 2), Worker(2, 2), Worker(3, 2)];
      Load(s) == 8 && SquareLoad(s) == 16 && |s| * SquareLoad(s) - Load(s) * Load(s) == 0
    ensures var s := [Worker(0, 0), Worker(1, 1), Worker(2, 2), Worker(3, 3)];
      Load(s) == 6 && SquareLoad(s) == 14 && |s| * SquareLoad(s) - Load(s) * Load(s) == 20
  {
    var a := [Worker(0, 2), Worker(1, 2), Worker(2, 2), Worker(3, 2)];
    assert a[..3][..2][..1][..0] == [];
    assert Load(a[..3][..2][..1]) == 2 && SquareLoad(a[..3][..2][..1]) == 4;
    var b := [Worker(0, 0), Worker(1, 1), Worker(2, 2), Worker(3, 3)];
    assert b[..3][..2][..1][..0] == [];
    assert Load(b[..3][..2][..1]) == 0 && SquareLoad(b[..3][..2][..1]) == 0;
  }

  /** The linear search of a least-loaded completion: the first worker with the given id. */
  method Locate(workers: array<Worker>, id: nat) returns (k: Option<nat>)
    ensures k == FirstWithId(workers[..], id)
  {
    var i := 0;
    while i < workers.Length && workers[i].id != id
      invariant 0 <= i <= workers.Length
      invariant forall m :: 0 <= m < i ==> workers[m].id != id
    {
      i := i + 1;
    }
    k := if i < workers.Length then Some(i) else None;
  }

  /** Exchanges the workers at j - 1 and j when the one before carries more load. */
  method SwapDown(a: array<Worker>, j: nat)
    requires 0 < j < a.Length && a[j - 1].pending > a[j].pending
    modifies a
    ensures a[..] == old(a[..])[j - 1 := old(a[j])][j := old(a[j - 1])]
    ensures multiset(a[..]) == multiset(old(a[..]))
    ensures TieOrderPreserved(a[..], old(a[..]))
  {
    SwapKeepsTieOrder(a[..], j);
    a[j - 1], a[j] := a[j], a[j - 1];
  }

  /**
   * Halfway through moving the worker that started at i down: [0, j) and
   * [j, i] are sorted, and nothing in [0, j) carries more than anything in
   * (j, i].
   */
  predicate Inserting(s: seq<Worker>, j: nat, i: nat)
    requires j <= i < |s|
  {
    SortedBetween(s, 0, j) && SortedBetween(s, j, i + 1) &&
    forall k, l :: 0 <= k < j < l <= i ==> s[k].pending <= s[l].pending
  }

  lemma InsertingStep(s: seq<Worker>, j: nat, i: nat)
    requires 0 < j <= i < |s| && Inserting(s, j, i)
    requires s[j - 1].pending > s[j].pending
    ensures Inserting(s[j - 1 := s[j]][j := s[j - 1]], j - 1, i)
  {
  }

  lemma InsertingDone(s: seq<Worker>, j: nat, i: nat)
    requires j <= i < |s| && Inserting(s, j, i)
    requires j == 0 || s[j - 1].pending <= s[j].pending
    ensures SortedBetween(s, 0, i + 1)
  {
  }

  /**
   * One pass of the insertion sort: with [0, i) sorted, moves a[i] down past
   * every worker of greater load, so that [0, i] is sorted; the workers after
   * position i stay where they are.
   */
  method InsertDown(a: array<Worker>, i: nat)
    requires i < a.Length && SortedBetween(a[..], 0, i)
    modifies a
    ensures SortedBetween(a[..], 0, i + 1)
    ensures multiset(a[..]) == multiset(old(a[..]))
    ensures TieOrderPreserved(a[..], old(a[..]))
    ensures SortedBetween(old(a[..]), 0, i + 1) ==> a[..] == old(a[..])
    ensures a[i + 1..] == old(a[i + 1..])
  {
    var j := i;
    while j > 0 && Compare(a[j - 1], a[j]) == Greater
      invariant 0 <= j <= i
      invariant Inserting(a[..], j, i)
      invariant multiset(a[..]) == multiset(old(a[..]))
      invariant TieOrderPreserved(a[..], old(a[..]))
      invariant j == i ==> a[..] == old(a[..])
      invariant a[i + 1..] == old(a[i + 1..])
      invariant j < i ==> !SortedBetween(old(a[..]), 0, i + 1)
    {
      ghost var before := a[..];
      assert !SortedBetween(old(a[..]), 0, i + 1) by {
        if j == i {
          assert Compare(before[j - 1], before[j]) == Greater;
        }
      }
      InsertingStep(before, j, i);
      SwapDown(a, j);
      TieOrderTransitive(a[..], before, old(a[..]));
      j := j - 1;
    }
    InsertingDone(a[..], j, i);
  }

  /**
   * `Vec::sort` on the pool: an in-place stable sort by `cmp`.  The result is
   * sorted by load, is a rearrangement of the input, and keeps workers of
   * equal load in their previous relative order; an already sorted pool is
   * left as it is.
   */
  method StableSort(a: array<Worker>)
    modifies a
    ensures SortedByLoad(a[..])
    ensures multiset(a[..]) == multiset(old(a[..]))
    ensures TieOrderPreserved(a[..], old(a[..]))
    ensures SortedByLoad(old(a[..])) ==> a[..] == old(a[..])
  {
    if a.Length == 0 {
      return;
    }
    var i := 1;
    while i < a.Length
      invariant 1 <= i <= a.Length
      invariant SortedBetween(a[..], 0, i)
      invariant multiset(a[..]) == multiset(old(a[..]))
      invariant TieOrderPreserved(a[..], old(a[..]))
      invariant SortedByLoad(old(a[..])) ==> a[..] == old(a[..])
    {
      ghost var before := a[..];
      InsertDown(a, i);
      TieOrderTransitive(a[..], before, old(a[..]));
      i := i + 1;
    }
  }

  // ---------------------------------------------------------------------
  // Least-loaded policy

  /**
   * A completion for id is safe when the first worker with that id, if
   * there is one, has work pending: `pending` is unsigned and `-= 1` on zero
   * does not yield a count.
   */
  predicate CanComplete(s: seq<Worker>, id: nat)
  {
    match FirstWithId(s, id)
    case None => true
    case Some(k) => s[k].pending > 0
  }

  /**
   * The state change of one least-loaded event, before the re-sort: a request
   * adds one to the front worker, a completion takes one from the first
   * worker with the id and changes nothing when no worker has it.
   */
  function LeastLoadedUpdate(s: seq<Worker>, e: Event): seq<Worker>
    requires e.Request? ==> |s| > 0
    requires e.Done? ==> CanComplete(s, e.id)
  {
    match e
    case Request => s[0 := s[0].(pending := s[0].pending + 1)]
    case Done(id) =>
      match FirstWithId(s, id)
      case None => s
      case Some(k) => s[k := s[k].(pending := s[k].pending - 1)]
  }

  /**
   * One least-loaded event changes exactly one worker's load, by one, and no
   * id; everything else stays.
   */
  lemma LeastLoadedUpdateChangesOneWorker(s: seq<Worker>, e: Event)
    requires e.Request? ==> |s| > 0
    requires e.Done? ==> CanComplete(s, e.id)
    ensures |LeastLoadedUpdate(s, e)| == |s|
    ensures Ids(LeastLoadedUpdate(s, e)) == Ids(s)
    ensures e.Request? ==> Load(LeastLoadedUpdate(s, e)) == Load(s) + 1
    ensures e.Request? ==> LeastLoadedUpdate(s, e)[0].pending == s[0].pending + 1
    ensures e.Request? ==> forall k :: 0 < k < |s| ==> LeastLoadedUpdate(s, e)[k] == s[k]
    ensures e.Done? && FirstWithId(s, e.id).None? ==> LeastLoadedUpdate(s, e) == s
    ensures e.Done? && FirstWithId(s, e.id).Some? ==>
      var m := FirstWithId(s, e.id).value;
      Load(LeastLoadedUpdate(s, e)) + 1 == Load(s) &&
      LeastLoadedUpdate(s, e)[m].pending + 1 == s[m].pending &&
      forall k :: 0 <= k < |s| && k != m ==> LeastLoadedUpdate(s, e)[k] == s[k]
  {
    var r := LeastLoadedUpdate(s, e);
    assert Ids(r) == Ids(s);
    match e
    case Request =>
      LoadUpdate(s, 0, r[0]);
    case Done(id) =>
      match FirstWithId(s, id)
      case None =>
      case Some(m) =>
        LoadUpdate(s, m, r[m]);
  }

  class LeastLoadedDispatcher {
    var workers: array<Worker>
    /** Requests routed so far. */
    ghost var dispatched: nat
    /** Completions that found their worker so far. */
    ghost var completed: nat

    /**
     * The pool is sorted by load, its ids are 0..n-1 each exactly once, and
     * the total load is what has been dispatched and not completed.
     */
    ghost predicate Valid()
      reads this, workers
    {
      SortedByLoad(workers[..]) &&
      multiset(Ids(workers[..])) == multiset(Positions(workers.Length)) &&
      Load(workers[..]) + completed == dispatched
    }

    /** `dispatch` takes over the pool `main` built. */
    constructor (pool: array<Worker>)
      requires IsFreshPool(pool[..])
      ensures Valid()
      ensures workers == pool && dispatched == 0 && completed == 0
    {
      workers := pool;
      dispatched, completed := 0, 0;
      new;
      assert Ids(pool[..]) == Positions(pool.Length);
      FreshPoolIsIdle(pool[..]);
    }

    /**
     * The event half of a `dispatch` turn, before the re-sort: a request
     * raises the front worker's load, a completion lowers the load of the
     * first worker with its id.
     */
    method Apply(e: Event) returns (routed: Option<nat>)
      requires e.Request? ==> workers.Length > 0
      requires e.Done? ==> CanComplete(workers[..], e.id)
      modifies this, workers
      ensures workers == old(workers)
      ensures workers[..] == LeastLoadedUpdate(old(workers[..]), e)
      ensures routed == if e.Request? then Some(old(workers[0].id)) else None
      ensures dispatched == old(dispatched) + (if e.Request? then 1 else 0)
      ensures completed == old(completed) + (if e.Done? && FirstWithId(old(workers[..]), e.id).Some? then 1 else 0)
    {
      match e {
        case Request =>
          var w := workers[0];
          workers[0] := w.(pending := w.pending + 1);
          dispatched := dispatched + 1;
          routed := Some(w.id);
        case Done(id) =>
          var k := Locate(workers, id);
          if k.Some? {
            var w := workers[k.value];
            workers[k.value] := w.(pending := w.pending - 1);
            completed := completed + 1;
          }
          routed := None;
      }
    }

    /**
     * One turn of `dispatch`: the event, then a stable re-sort by load.  The
     * new pool is sorted, a rearrangement of the updated one that keeps the
     * order among ties, and its front worker carries the least load.
     */
    method Step(e: Event) returns (routed: Option<nat>)
      requires Valid()
      requires e.Request? ==> workers.Length > 0
      requires e.Done? ==> CanComplete(workers[..], e.id)
      modifies this, workers
      ensures Valid() && workers == old(workers)
      ensures SortedByLoad(workers[..])
      ensures multiset(workers[..]) == multiset(LeastLoadedUpdate(old(workers[..]), e))
      ensures TieOrderPreserved(workers[..], LeastLoadedUpdate(old(workers[..]), e))
      ensures forall k :: 0 <= k < workers.Length ==> workers[0].pending <= workers[k].pending
      ensures routed == if e.Request? then Some(old(workers[0].id)) else None
      ensures dispatched == old(dispatched) + (if e.Request? then 1 else 0)
      ensures completed == old(completed) + (if e.Done? && FirstWithId(old(workers[..]), e.id).Some? then 1 else 0)
    {
      ghost var before := workers[..];
      routed := Apply(e);
      ghost var updated := workers[..];
      LeastLoadedUpdateChangesOneWorker(before, e);
      StableSort(workers);
      PermutationKeepsIds(workers[..], updated);
      PermutationKeepsLoad(workers[..], updated);
      assert forall k :: 0 < k < workers.Length ==> Compare(workers[0], workers[k]) != Greater;
    }

    /**
     * The `print(&workers)` after each turn, integer part: the sum it reports
     * is what has been dispatched less what has been completed, and its
     * variance is not negative.
     */
    method Report() returns (sum: nat, sumsq: nat)
      requires Valid()
      ensures sum + completed == dispatched
      ensures sumsq == SquareLoad(workers[..])
      ensures workers.Length * sumsq >= sum * sum
    {
      sum, sumsq := Stats(workers);
      VarianceNonNegative(workers[..]);
    }
  }

  // ---------------------------------------------------------------------
  // Round-robin policy

  /** Request number j (counting from 0) goes to position j mod n. */
  predicate IsCyclic(history: seq<nat>, n: nat)
    requires n > 0
  {
    forall j :: 0 <= j < |history| ==> history[j] == j % n
  }

  lemma MulAtLeast(e: int, n: int)
    requires e >= 1 && n > 0
    ensures e * n >= n
  {
  }

  lemma MulDifference(q: int, d: int, n: int)
    ensures (q - d) * n == q * n - d * n
  {
  }

  /** The remainder is the unique r in [0, n) with a == q * n + r. */
  lemma ModUnique(a: int, n: int, q: int, r: int)
    requires n > 0 && 0 <= r < n && a == q * n + r
    ensures a % n == r
  {
    var d, r' := a / n, a % n;
    assert a == d * n + r';
    MulDifference(q, d, n);
    if q > d {
      MulAtLeast(q - d, n);
    } else if q < d {
      MulDifference(d, q, n);
      MulAtLeast(d - q, n);
    }
  }

  lemma ModNext(m: nat, n: nat)
    requires n > 0 && m % n + 1 < n
    ensures (m + 1) % n == m % n + 1
  {
    var q, r := m / n, m % n;
    assert m == q * n + r;
    ModUnique(m + 1, n, q, r + 1);
  }

  lemma ModWrap(m: nat, n: nat)
    requires n > 0 && m % n + 1 == n
    ensures (m + 1) % n == 0
  {
    var q, r := m / n, m % n;
    assert m == q * n + r;
    assert (q + 1) * n == q * n + n;
    ModUnique(m + 1, n, q + 1, 0);
  }

  /** Advancing the cursor: one step after position m mod n is position m + 1 mod n. */
  lemma NextCursor(m: nat, n: nat)
    requires n > 0
    ensures (m % n + 1) % n == (m + 1) % n
  {
    if m % n + 1 < n {
      ModNext(m, n);
      ModUnique(m % n + 1, n, 0, m % n + 1);
    } else {
      ModWrap(m, n);
      ModUnique(n, n, 1, 0);
    }
  }

  class RoundRobinDispatcher {
    var workers: array<Worker>
    /** The `i` of `dispatch_rr`: the position the next request goes to. */
    var cursor: nat
    /** The positions requests were routed to, in order. */
    ghost var history: seq<nat>
    /** Completions processed so far. */
    ghost var completed: nat

    /**
     * Every worker's id is its position, requests have gone round the pool in
     * order with the cursor just after the last one, and the total load is
     * what has been routed and not completed.
     */
    ghost predicate Valid()
      reads this, workers
    {
      IdsArePositions(workers[..]) &&
      (workers.Length == 0 ==> cursor == 0 && history == []) &&
      (workers.Length > 0 ==> cursor == |history| % workers.Length && IsCyclic(history, workers.Length)) &&
      Load(workers[..]) + completed == |history|
    }

    /** `dispatch_rr` takes over the pool `main` built, with its cursor at 0. */
    constructor (pool: array<Worker>)
      requires IsFreshPool(pool[..])
      ensures Valid()
      ensures workers == pool && cursor == 0 && history == [] && completed == 0
    {
      workers := pool;
      cursor := 0;
      history, completed := [], 0;
      new;
      FreshPoolIsIdle(pool[..]);
    }

    /**
     * One turn of `dispatch_rr`.  A request goes to the worker under the
     * cursor, whose load goes up by one, and the cursor moves on by one modulo
     * the pool size.  A completion for id takes one from `workers[id]`, which
     * is the worker with that id; no other worker and not the cursor change.
     * The pool is never reordered.
     */
    method Step(e: Event) returns (routed: Option<nat>)
      requires Valid()
      requires e.Request? ==> workers.Length > 0
      requires e.Done? ==> e.id < workers.Length && workers[e.id].pending > 0
      modifies this, workers
      ensures Valid() && workers == old(workers)
      ensures cursor < workers.Length || workers.Length == 0
      ensures e.Request? ==>
        routed == Some(old(cursor)) &&
        workers[..] == old(workers[..])[old(cursor) := old(workers[cursor]).(pending := old(workers[cursor].pending) + 1)] &&
        cursor == (old(cursor) + 1) % workers.Length &&
        history == old(history) + [old(cursor)] && completed == old(completed)
      ensures e.Done? ==>
        routed == None && cursor == old(cursor) &&
        history == old(history) && completed == old(completed) + 1 &&
        forall k :: 0 <= k < workers.Length ==>
          workers[k] == if workers[k].id == e.id then old(workers[k]).(pending := old(workers[k].pending) - 1) else old(workers[k])
    {
      ghost var before := workers[..];
      match e {
        case Request =>
          var w := workers[cursor];
          workers[cursor] := w.(pending := w.pending + 1);
          routed := Some(w.id);
          LoadUpdate(before, cursor, workers[cursor]);
          NextCursor(|history|, workers.Length);
          history := history + [cursor];
          cursor := (cursor + 1) % workers.Length;
        case Done(id) =>
          var w := workers[id];
          workers[id] := w.(pending := w.pending - 1);
          LoadUpdate(before, id, workers[id]);
          completed := completed + 1;
          routed := None;
      }
    }

    /**
     * The `print(&workers)` after each turn, integer part: the sum it reports
     * is the number of requests routed less the completions, and its variance
     * is not negative.
     */
    method Report() returns (sum: nat, sumsq: nat)
      requires Valid()
      ensures sum + completed == |history|
      ensures sumsq == SquareLoad(workers[..])
      ensures workers.Length * sumsq >= sum * sum
    {
      sum, sumsq := Stats(workers);
      VarianceNonNegative(workers[..]);
    }
  }

  /**
   * K consecutive requests from the cursor c hit positions c, c+1, ... mod n:
   * the window of the history that starts at request m starts at m mod n.
   */
  lemma {:induction false} ConsecutiveRequests(history: seq<nat>, n: nat, m: nat, k: nat)
    requires n > 0 && IsCyclic(history, n) && m + k <= |history|
    ensures forall i :: m <= i < m + k ==> history[i] == (m % n + (i - m)) % n
  {
    forall i | m <= i < m + k
      ensures history[i] == (m % n + (i - m)) % n
    {
      ModShift(m, i - m, n);
    }
  }

  lemma {:induction false} ModShift(m: nat, j: nat, n: nat)
    requires n > 0
    ensures (m + j) % n == (m % n + j) % n
    decreases j
  {
    if j > 0 {
      var a, b := m + j - 1, m % n + j - 1;
      ModShift(m, j - 1, n);
      NextCursor(a, n);
      NextCursor(b, n);
      assert a % n == b % n;
    }
  }

  /** Pool size 3, cursor at 0: four requests go to 0, 1, 2, 0 and leave the cursor at 1. */
  method FourRequestsOnThreeWorkers() returns (routed: seq<nat>, cursor: nat)
    ensures routed == [0, 1, 2, 0] && cursor == 1
  {
    var pool := BuildPool(3);
    var d := new RoundRobinDispatcher(pool);
    routed := [];
    for r := 0 to 4
      invariant d.Valid() && d.workers == pool && d.history == routed && |routed| == r
    {
      var target := d.Step(Request);
      routed := routed + [target.value];
    }
    cursor := d.cursor;
  }

  /**
   * Pool size 1, least-loaded: three requests all go to the one worker and
   * raise its load to 3; three completions bring it back to 0.
   */
  method SingleWorkerScenario() returns (peak: nat, final: nat)
    ensures peak == 3 && final == 0
  {
    var pool := BuildPool(1);
    var d := new LeastLoadedDispatcher(pool);
    assert pool[..] == [Worker(0, 0)];
    for r := 0 to 3
      invariant d.Valid() && d.workers == pool && pool[..] == [Worker(0, r)]
    {
      ghost var next := LeastLoadedUpdate(pool[..], Request);
      assert next == [Worker(0, r + 1)];
      var _ := d.Step(Request);
      SingletonPermutation(pool[..], next);
    }
    peak := pool[0].pending;
    for r := 0 to 3
      invariant d.Valid() && d.workers == pool && pool[..] == [Worker(0, 3 - r)]
    {
      assert FirstWithId(pool[..], 0) == Some(0);
      ghost var next := LeastLoadedUpdate(pool[..], Done(0));
      assert next == [Worker(0, 3 - r - 1)];
      var _ := d.Step(Done(0));
      SingletonPermutation(pool[..], next);
    }
    final := pool[0].pending;
  }
}
