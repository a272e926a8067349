/**
 * The worker records of the load balancer (prog/loadbalancer.rs) as values,
 * their two comparators, and the facts about pools of workers that the
 * dispatchers rely on: total load, the ids present, search by id, sortedness
 * by load and the order among workers of equal load.
 */
module Workers {
  import opened Wrappers

  /**
   * A worker as the dispatcher keeps it: an identity and the number of
   * requests routed to it that have not yet been completed.  The channel
   * handle used to hand the request over is not part of the model.
   */
  datatype Worker = Worker(id: nat, pending: nat)

  datatype Ordering = Less | Equal | Greater

  /** `PartialEq::eq`: two workers are equal when their ids are. */
  predicate SameWorker(a: Worker, b: Worker)
  {
    a.id == b.id
  }

  /** `Ord::cmp`: workers are ordered by their pending counts alone. */
  function Compare(a: Worker, b: Worker): Ordering
  {
    if a.pending < b.pending then Less
    else if a.pending == b.pending then Equal
    else Greater
  }

  function Flip(o: Ordering): Ordering
  {
    match o
    case Less => Greater
    case Equal => Equal
    case Greater => Less
  }

  /** `cmp` is a total preorder, as `Vec::sort` needs: antisymmetric, transitive, total. */
  lemma CompareIsTotalPreorder(a: Worker, b: Worker, c: Worker)
    ensures Compare(a, b) == Flip(Compare(b, a))
    ensures Compare(a, a) == Equal
    ensures Compare(a, b) != Greater && Compare(b, c) != Greater ==> Compare(a, c) != Greater
    ensures Compare(a, b) != Greater || Compare(b, a) != Greater
  {
  }

  /**
   * `cmp` looks at the loads only and `eq` at the ids only: renumbering the
   * workers does not change how `cmp` orders them, and changing their loads
   * does not change whether `eq` holds.
   */
  lemma ComparatorsLookAtDifferentFields(a: Worker, b: Worker, i: nat, j: nat, p: nat, q: nat)
    ensures Compare(a.(id := i), b.(id := j)) == Compare(a, b)
    ensures SameWorker(a.(pending := p), b.(pending := q)) == SameWorker(a, b)
  {
  }

  /**
   * The two comparators disagree: the same worker at two loads is `eq` but
   * not `Equal` under `cmp`, and two workers of equal load are `Equal` under
   * `cmp` but not `eq`.
   */
  lemma ComparatorsDisagree()
    ensures exists a, b :: SameWorker(a, b) && Compare(a, b) != Equal
    ensures exists a, b :: !SameWorker(a, b) && Compare(a, b) == Equal
  {
    var u, v, w := Worker(0, 0), Worker(0, 1), Worker(1, 0);
    assert SameWorker(u, v) && Compare(u, v) != Equal;
    assert !SameWorker(u, w) && Compare(u, w) == Equal;
  }

  // ---------------------------------------------------------------------
  // Pools as sequences

  /** The ids of a pool, position by position. */
  function Ids(s: seq<Worker>): (r: seq<nat>)
    ensures |r| == |s|
  {
    seq(|s|, k requires 0 <= k < |s| => s[k].id)
  }

  /** The sequence 0, 1, ..., n - 1. */
  function Positions(n: nat): (r: seq<nat>)
    ensures |r| == n
  {
    seq(n, k => k)
  }

  /** The pool `main` builds: worker k has id k and nothing pending. */
  predicate IsFreshPool(s: seq<Worker>)
  {
    forall k :: 0 <= k < |s| ==> s[k] == Worker(k, 0)
  }

  /** Under round-robin, every worker's id is its position. */
  predicate IdsArePositions(s: seq<Worker>)
  {
    forall k :: 0 <= k < |s| ==> s[k].id == k
  }

  /** The sum of the pending counts, the `sum` of `print`. */
  function Load(s: seq<Worker>): nat
  {
    if s == [] then 0 else Load(s[..|s| - 1]) + s[|s| - 1].pending
  }

  /** The sum of the squared pending counts, the `sumsq` of `print`. */
  function SquareLoad(s: seq<Worker>): nat
  {
    if s == [] then 0 else SquareLoad(s[..|s| - 1]) + s[|s| - 1].pending * s[|s| - 1].pending
  }

  lemma {:induction false} LoadAppend(a: seq<Worker>, b: seq<Worker>)
    ensures Load(a + b) == Load(a) + Load(b)
    decreases |b|
  {
    if b != [] {
      assert (a + b)[..|a + b| - 1] == a + b[..|b| - 1];
      LoadAppend(a, b[..|b| - 1]);
    } else {
      assert a + b == a;
    }
  }

  /** Replacing one worker changes the total load by the change in that worker's load. */
  lemma {:induction false} LoadUpdate(s: seq<Worker>, k: nat, w: Worker)
    requires k < |s|
    ensures Load(s[k := w]) + s[k].pending == Load(s) + w.pending
  {
    assert s == s[..k] + [s[k]] + s[k + 1..];
    assert s[k := w] == s[..k] + [w] + s[k + 1..];
    LoadAppend(s[..k] + [s[k]], s[k + 1..]);
    LoadAppend(s[..k], [s[k]]);
    LoadAppend(s[..k] + [w], s[k + 1..]);
    LoadAppend(s[..k], [w]);
    assert [s[k]][..0] == [] && [w][..0] == [];
  }

  /** A freshly built pool carries no load. */
  lemma {:induction false} FreshPoolIsIdle(s: seq<Worker>)
    requires IsFreshPool(s)
    ensures Load(s) == 0
  {
    if s != [] {
      FreshPoolIsIdle(s[..|s| - 1]);
    }
  }

  /** Taking out the worker at position j removes exactly one copy of it. */
  lemma RemoveAt(t: seq<Worker>, j: nat)
    requires j < |t|
    ensures multiset(t[..j] + t[j + 1..]) == multiset(t) - multiset{t[j]}
  {
    assert t == t[..j] + [t[j]] + t[j + 1..];
  }

  /** Taking out the worker at position j removes one copy of its id. */
  lemma IdsRemoveAt(t: seq<Worker>, j: nat)
    requires j < |t|
    ensures multiset(Ids(t)) == multiset(Ids(t[..j] + t[j + 1..])) + multiset{t[j].id}
  {
    var front, back := t[..j], t[j + 1..];
    assert Ids(t) == Ids(front) + [t[j].id] + Ids(back);
    assert Ids(front + back) == Ids(front) + Ids(back);
  }

  /** Extending a pool by one worker adds that worker's load. */
  lemma LoadSnoc(a: seq<Worker>, x: Worker)
    ensures Load(a + [x]) == Load(a) + x.pending
  {
  }

  /** Taking out the worker at position j removes its load from the total. */
  lemma LoadRemoveAt(t: seq<Worker>, j: nat)
    requires j < |t|
    ensures Load(t) == Load(t[..j] + t[j + 1..]) + t[j].pending
  {
    var front, x, back := t[..j], t[j], t[j + 1..];
    assert t == (front + [x]) + back;
    LoadAppend(front + [x], back);
    LoadSnoc(front, x);
    LoadAppend(front, back);
  }

  /** The only rearrangement of a single worker is itself. */
  lemma SingletonPermutation(s: seq<Worker>, t: seq<Worker>)
    requires |t| == 1 && multiset(s) == multiset(t)
    ensures s == t
  {
    assert |s| == |multiset(s)| == 1;
    assert s[0] in multiset(t);
  }

  /** Extending a pool by one worker adds one copy of its id. */
  lemma IdsSnoc(a: seq<Worker>, x: Worker)
    ensures multiset(Ids(a + [x])) == multiset(Ids(a)) + multiset{x.id}
  {
    assert Ids(a + [x]) == Ids(a) + [x.id];
  }

  /** Rearranging a pool loses no id and duplicates none. */
  lemma {:induction false} PermutationKeepsIds(s: seq<Worker>, t: seq<Worker>)
    requires multiset(s) == multiset(t)
    ensures multiset(Ids(s)) == multiset(Ids(t))
    decreases |s|
  {
    if s == [] {
      assert |t| == |multiset(t)| == 0;
    } else {
      var x, s' := s[|s| - 1], s[..|s| - 1];
      assert s == s' + [x];
      assert multiset(s) == multiset(s') + multiset{x};
      assert x in multiset(t);
      var j :| 0 <= j < |t| && t[j] == x;
      var t' := t[..j] + t[j + 1..];
      RemoveAt(t, j);
      PermutationKeepsIds(s', t');
      IdsRemoveAt(t, j);
      IdsSnoc(s', x);
    }
  }

  /** Rearranging a pool keeps its total load. */
  lemma {:induction false} PermutationKeepsLoad(s: seq<Worker>, t: seq<Worker>)
    requires multiset(s) == multiset(t)
    ensures Load(s) == Load(t)
    decreases |s|
  {
    if s == [] {
      assert |t| == |multiset(t)| == 0;
    } else {
      var x, s' := s[|s| - 1], s[..|s| - 1];
      assert s == s' + [x];
      assert x in multiset(t);
      var j :| 0 <= j < |t| && t[j] == x;
      RemoveAt(t, j);
      PermutationKeepsLoad(s', t[..j] + t[j + 1..]);
      LoadRemoveAt(t, j);
    }
  }

  /**
   * Population variance is never negative: n * sumsq >= sum * sum, so
   * `sumsq / n - (sum / n)^2` as `print` computes it is at least zero in exact
   * arithmetic.
   */
  lemma {:induction false} VarianceNonNegative(s: seq<Worker>)
    ensures |s| * SquareLoad(s) >= Load(s) * Load(s)
    decreases |s|
  {
    if s != [] {
      var s', y := s[..|s| - 1], s[|s| - 1].pending;
      var n, q, l := |s'|, SquareLoad(s'), Load(s');
      VarianceNonNegative(s');
      SquaredDeviations(s', y);
      // (n + 1)(q + y^2) - (l + y)^2 == (n q - l^2) + (q - 2 y l + n y^2)
      assert (n + 1) * (q + y * y) - (l + y) * (l + y) == (n * q - l * l) + (q - 2 * y * l + n * y * y);
    }
  }

  /** The squared deviations of the loads from any value x add up to a non-negative number. */
  lemma {:induction false} SquaredDeviations(s: seq<Worker>, x: int)
    ensures SquareLoad(s) - 2 * x * Load(s) + |s| * x * x >= 0
    decreases |s|
  {
    if s != [] {
      var s', y := s[..|s| - 1], s[|s| - 1].pending;
      var q, l, n := SquareLoad(s'), Load(s'), |s'|;
      SquaredDeviations(s', x);
      assert SquareLoad(s) == q + y * y;
      assert Load(s) == l + y;
      assert |s| == n + 1;
      Expand(q, l, n, x, y);
    }
  }

  lemma Expand(q: int, l: int, n: int, x: int, y: int)
    requires q - 2 * x * l + n * x * x >= 0
    ensures (q + y * y) - 2 * x * (l + y) + (n + 1) * x * x >= 0
  {
  }

  // ---------------------------------------------------------------------
  // Search by id

  /** The position of the first worker with the given id, if any. */
  function FirstWithId(s: seq<Worker>, id: nat): (r: Option<nat>)
    ensures r.Some? ==> r.value < |s| && s[r.value].id == id
    ensures r.Some? ==> forall m :: 0 <= m < r.value ==> s[m].id != id
    ensures r.None? <==> forall m :: 0 <= m < |s| ==> s[m].id != id
  {
    if s == [] then None
    else if s[0].id == id then Some(0)
    else match FirstWithId(s[1..], id)
      case None => None
      case Some(k) => Some(k + 1)
  }

  // ---------------------------------------------------------------------
  // Sortedness and the order among ties

  /** The slice [lo, hi) of s is in ascending order of load. */
  predicate SortedBetween(s: seq<Worker>, lo: nat, hi: nat)
    requires lo <= hi <= |s|
  {
    forall k, l :: lo <= k < l < hi ==> Compare(s[k], s[l]) != Greater
  }

  predicate SortedByLoad(s: seq<Worker>)
  {
    SortedBetween(s, 0, |s|)
  }

  /** The workers of s whose load is p, in the order they appear in s. */
  function WithLoad(s: seq<Worker>, p: nat): seq<Worker>
  {
    if s == [] then []
    else (if s[0].pending == p then [s[0]] else []) + WithLoad(s[1..], p)
  }

  /**
   * r keeps the order that s gives to workers of equal load: for every load,
   * the workers with that load appear in r exactly as they do in s.  This is
   * what a stable sort keeps.
   */
  ghost predicate TieOrderPreserved(r: seq<Worker>, s: seq<Worker>)
  {
    forall p: nat :: WithLoad(r, p) == WithLoad(s, p)
  }

  lemma TieOrderTransitive(r: seq<Worker>, s: seq<Worker>, t: seq<Worker>)
    requires TieOrderPreserved(r, s) && TieOrderPreserved(s, t)
    ensures TieOrderPreserved(r, t)
  {
  }

  lemma {:induction false} WithLoadAppend(a: seq<Worker>, b: seq<Worker>, p: nat)
    ensures WithLoad(a + b, p) == WithLoad(a, p) + WithLoad(b, p)
    decreases |a|
  {
    if a == [] {
      assert a + b == b;
    } else {
      var head := if a[0].pending == p then [a[0]] else [];
      assert (a + b)[0] == a[0];
      assert (a + b)[1..] == a[1..] + b;
      assert WithLoad(a + b, p) == head + WithLoad(a[1..] + b, p);
      WithLoadAppend(a[1..], b, p);
      assert WithLoad(a, p) == head + WithLoad(a[1..], p);
    }
  }

  lemma {:induction false} WithLoadMembers(s: seq<Worker>, p: nat, x: Worker)
    ensures x in WithLoad(s, p) <==> x in s && x.pending == p
    decreases |s|
  {
    if s != [] {
      WithLoadMembers(s[1..], p, x);
      assert s == [s[0]] + s[1..];
    }
  }

  /** Exchanging two neighbours of different load keeps the order among ties. */
  lemma SwapKeepsTieOrder(s: seq<Worker>, j: nat)
    requires 0 < j < |s| && s[j - 1].pending != s[j].pending
    ensures TieOrderPreserved(s[j - 1 := s[j]][j := s[j - 1]], s)
  {
    var t := s[j - 1 := s[j]][j := s[j - 1]];
    var front, back := s[..j - 1], s[j + 1..];
    assert s == front + [s[j - 1], s[j]] + back;
    assert t == front + [s[j], s[j - 1]] + back;
    forall p: nat
      ensures WithLoad(t, p) == WithLoad(s, p)
    {
      WithLoadAppend(front + [s[j - 1], s[j]], back, p);
      WithLoadAppend(front, [s[j - 1], s[j]], p);
      WithLoadAppend(front + [s[j], s[j - 1]], back, p);
      WithLoadAppend(front, [s[j], s[j - 1]], p);
      WithLoadAppend([s[j - 1]], [s[j]], p);
      WithLoadAppend([s[j]], [s[j - 1]], p);
      assert [s[j - 1], s[j]] == [s[j - 1]] + [s[j]];
      assert [s[j], s[j - 1]] == [s[j]] + [s[j - 1]];
    }
  }

  /**
   * A sorted pool is determined by the order among its ties: two pools that
   * are both sorted by load and agree on that order are equal.  So "sorted and
   * tie order preserved" pins down the outcome of a stable sort completely.
   */
  lemma {:induction false} SortedIsDeterminedByTieOrder(r1: seq<Worker>, r2: seq<Worker>)
    requires SortedByLoad(r1) && SortedByLoad(r2)
    requires TieOrderPreserved(r1, r2)
    ensures r1 == r2
    decreases |r1|
  {
    if r1 == [] || r2 == [] {
      var some := if r1 != [] then r1[0] else if r2 != [] then r2[0] else Worker(0, 0);
      assert WithLoad(r1, some.pending) == WithLoad(r2, some.pending);
    } else {
      var p1, p2 := r1[0].pending, r2[0].pending;
      assert r1[0] in WithLoad(r1, p1);
      WithLoadMembers(r2, p1, r1[0]);
      assert p2 <= p1;
      assert r2[0] in WithLoad(r2, p2);
      WithLoadMembers(r1, p2, r2[0]);
      assert p1 <= p2;
      assert WithLoad(r1, p1) == [r1[0]] + WithLoad(r1[1..], p1);
      assert WithLoad(r2, p1) == [r2[0]] + WithLoad(r2[1..], p1);
      assert WithLoad(r1, p1) == WithLoad(r2, p1);
      assert WithLoad(r1, p1)[0] == r1[0];
      assert WithLoad(r2, p1)[0] == r2[0];
      forall p: nat
        ensures WithLoad(r1[1..], p) == WithLoad(r2[1..], p)
      {
        assert WithLoad(r1, p) == WithLoad(r2, p);
        assert WithLoad(r1, p) == (if p == p1 then [r1[0]] else []) + WithLoad(r1[1..], p);
        assert WithLoad(r2, p) == (if p == p1 then [r2[0]] else []) + WithLoad(r2[1..], p);
        if p == p1 {
          assert WithLoad(r1, p)[1..] == WithLoad(r1[1..], p);
          assert WithLoad(r2, p)[1..] == WithLoad(r2[1..], p);
        } else {
          assert WithLoad(r1, p) == WithLoad(r1[1..], p);
          assert WithLoad(r2, p) == WithLoad(r2[1..], p);
        }
      }
      SortedIsDeterminedByTieOrder(r1[1..], r2[1..]);
      assert r1 == [r1[0]] + r1[1..];
      assert r2 == [r2[0]] + r2[1..];
    }
  }
}
