/** Choosing the rows a claim takes. A claim's SQL orders its candidates by a
    key that ties for all of them, so the database's scan order decides; the
    model takes the smallest ids first, the order of the rowid and of the
    status index. A negative LIMIT means no limit in SQLite. */
module Selection {

  predicate StrictlyIncreasing(xs: seq<nat>) {
    forall i, j :: 0 <= i < j < |xs| ==> xs[i] < xs[j]
  }

  /** How many rows a LIMIT of `limit` lets through out of `available`. */
  function LimitCount(limit: int, available: nat): (r: nat)
    ensures r <= available
    ensures limit >= 0 ==> r <= limit
    ensures r < available ==> 0 <= limit == r
  {
    if limit < 0 || available <= limit then available else limit
  }

  /** `m` is the least element of `s`. */
  predicate IsMin(m: nat, s: set<nat>) {
    m in s && forall y :: y in s ==> m <= y
  }

  lemma {:induction false} MinimumExists(s: set<nat>)
    requires s != {}
    ensures exists m :: IsMin(m, s)
    decreases |s|
  {
    var x :| x in s;
    if s != {x} {
      MinimumExists(s - {x});
      var m :| IsMin(m, s - {x});
      MinOfInsert(x, m, s);
    } else {
      assert IsMin(x, s);
    }
  }

  /** Adding `x` back to a set whose remainder has least element `m`. */
  lemma MinOfInsert(x: nat, m: nat, s: set<nat>)
    requires x in s && IsMin(m, s - {x})
    ensures IsMin(if x < m then x else m, s)
  {
    forall y | y in s ensures (if x < m then x else m) <= y {
      if y != x {
        assert y in s - {x};
      }
    }
  }


  /** Every element of `ids` is below every element of `s`. */
  predicate AllBelow(ids: seq<nat>, s: set<nat>) {
    forall i, y :: 0 <= i < |ids| && y in s ==> ids[i] < y
  }

  /** `ids` and `remaining` split `candidates` between them. */
  predicate Splits(candidates: set<nat>, ids: seq<nat>, remaining: set<nat>) {
    && remaining <= candidates
    && (forall i :: 0 <= i < |ids| ==> ids[i] in candidates && ids[i] !in remaining)
    && (forall y :: y in candidates && y !in remaining ==> y in ids)
  }

  /** Moving the minimum of `remaining` to the end of `ids` keeps the
      split, the order and the bound. */
  lemma TakeStep(candidates: set<nat>, ids: seq<nat>, remaining: set<nat>, m: nat)
    requires Splits(candidates, ids, remaining) && StrictlyIncreasing(ids) && AllBelow(ids, remaining)
    requires IsMin(m, remaining)
    ensures Splits(candidates, ids + [m], remaining - {m})
    ensures StrictlyIncreasing(ids + [m])
    ensures AllBelow(ids + [m], remaining - {m})
    ensures |remaining - {m}| == |remaining| - 1
  {
    var ids' := ids + [m];
    assert forall i :: 0 <= i < |ids| ==> ids'[i] == ids[i];
  }

  /** The `limit` smallest candidates, in increasing order. */
  method TakeSmallest(candidates: set<nat>, limit: int) returns (ids: seq<nat>)
    ensures StrictlyIncreasing(ids)
    ensures forall i :: 0 <= i < |ids| ==> ids[i] in candidates
    ensures |ids| == LimitCount(limit, |candidates|)
    ensures forall i, y :: 0 <= i < |ids| && y in candidates && y !in ids ==> ids[i] < y
  {
    var remaining := candidates;
    ids := [];
    while remaining != {} && (limit < 0 || |ids| < limit)
      invariant Splits(candidates, ids, remaining)
      invariant StrictlyIncreasing(ids)
      invariant AllBelow(ids, remaining)
      invariant |ids| + |remaining| == |candidates|
      invariant limit >= 0 ==> |ids| <= limit
      decreases |remaining|
    {
      MinimumExists(remaining);
      var m :| IsMin(m, remaining);
      TakeStep(candidates, ids, remaining, m);
      ids, remaining := ids + [m], remaining - {m};
    }
  }
}
