/**
 * Job-id bookkeeping on plain values. The store's job ids are viewed as an
 * `IdMap` from bucket key to the set of job ids the bucket holds; the
 * manager's invariants (the cached maximum bounds every id, no id sits in
 * two buckets) are predicates on that view, and the lemmas here say how each
 * kind of change to the store affects them.
 */
module JobIds {

  type IdMap = map<string, set<int>>

  /** A set is empty or has a member (stated so that `:|` can pick one). */
  lemma EmptyOrMember(s: set<int>)
    ensures s == {} || exists x :: x in s
  {
    assert (forall x :: x !in s) ==> s == {};
  }

  /** The largest of `s` and 0: what a scan started from 0 ends with. */
  ghost function MaxOf(s: set<int>): (r: nat)
    ensures forall x :: x in s ==> x <= r
    ensures r == 0 || r in s
    decreases s
  {
    if s == {} then 0
    else
      EmptyOrMember(s);
      var x :| x in s;
      var rest := MaxOf(s - {x});
      assert forall y :: y in s ==> y == x || y in s - {x};
      if x > rest then x else rest
  }

  /** Every job id of every bucket. */
  ghost function Flatten(ids: IdMap): set<int> {
    set n, x | n in ids && x in ids[n] :: x
  }

  /** No bucket holds an id above `bound`. */
  ghost predicate Bounded(ids: IdMap, bound: int) {
    forall n, x :: n in ids && x in ids[n] ==> x <= bound
  }

  /** No id is held by two buckets. */
  ghost predicate Disjoint(ids: IdMap) {
    forall n1, n2, x :: n1 in ids && n2 in ids && x in ids[n1] && x in ids[n2] ==> n1 == n2
  }

  /** A value a scan can end with (0 or an id, and no id above it) is the maximum. */
  lemma ScanIsMax(ids: IdMap, m: nat)
    requires Bounded(ids, m)
    requires m == 0 || exists n :: n in ids && m in ids[n]
    ensures m == MaxOf(Flatten(ids))
  {
    var all := Flatten(ids);
    forall x | x in all ensures x <= m {
      var n :| n in ids && x in ids[n];
    }
    if m != 0 {
      var n :| n in ids && m in ids[n];
      assert m in all;
    }
  }

  /** The maximum bounds every id; so does any larger value. */
  lemma MaxBounds(ids: IdMap, bound: int)
    requires bound >= MaxOf(Flatten(ids))
    ensures Bounded(ids, bound)
  {
    forall n, x | n in ids && x in ids[n] ensures x <= bound {
      assert x in Flatten(ids);
    }
  }

  /**
   * Adding the id one above a bound to bucket `k`: the id is new to every
   * bucket, the new bound covers the result, and ids stay unique.
   */
  lemma AddAboveBound(ids: IdMap, k: string, bound: int)
    requires k in ids && Bounded(ids, bound)
    ensures forall n :: n in ids ==> bound + 1 !in ids[n]
    ensures Bounded(ids[k := ids[k] + {bound + 1}], bound + 1)
    ensures Disjoint(ids) ==> Disjoint(ids[k := ids[k] + {bound + 1}])
  {
  }

  /**
   * Removing id `x` from bucket `k` keeps every bound; when ids were unique
   * and `k` held `x`, ids stay unique and no bucket holds `x` any more.
   */
  lemma RemoveId(ids: IdMap, k: string, x: int, bound: int)
    requires k in ids
    ensures Bounded(ids, bound) ==> Bounded(ids[k := ids[k] - {x}], bound)
    ensures Disjoint(ids) ==> Disjoint(ids[k := ids[k] - {x}])
    ensures Disjoint(ids) && x in ids[k] ==>
      forall n :: n in ids ==> x !in ids[k := ids[k] - {x}][n]
  {
  }

  /**
   * Deleting the largest id `m` while the cache is cold: when bucket `k`
   * also holds `m - 1`, the rescan that fills the cache afterwards ends at
   * `m - 1`, so the next job created is given the deleted id `m` again.
   */
  lemma ColdRescanReissues(ids: IdMap, k: string, m: int)
    requires k in ids && m >= 1 && m in ids[k] && m - 1 in ids[k]
    requires Bounded(ids, m) && Disjoint(ids)
    ensures MaxOf(Flatten(ids[k := ids[k] - {m}])) + 1 == m
  {
    var after := ids[k := ids[k] - {m}];
    assert Bounded(after, m - 1);
    assert m - 1 in after[k];
    ScanIsMax(after, m - 1);
  }

  /** Two views with the same keys and the same sets are one view. */
  lemma SameIds(a: IdMap, b: IdMap)
    requires a.Keys == b.Keys
    requires forall n :: n in a ==> a[n] == b[n]
    ensures a == b
  {
  }

  /** A new empty bucket leaves bounds and uniqueness as they were. */
  lemma AddEmptyBucket(ids: IdMap, k: string, bound: int)
    requires k !in ids
    ensures Bounded(ids, bound) ==> Bounded(ids[k := {}], bound)
    ensures Disjoint(ids) ==> Disjoint(ids[k := {}])
  {
  }

  /** Dropping a bucket leaves bounds and uniqueness as they were. */
  lemma DropBucket(ids: IdMap, k: string, bound: int)
    ensures Bounded(ids, bound) ==> Bounded(ids - {k}, bound)
    ensures Disjoint(ids) ==> Disjoint(ids - {k})
  {
  }
}
