/**
 Recall@K scoring of an image-retrieval evaluation.

 For every query the retrieval step yields a ranked list of database indices
 (`preds[q]`). For a list of thresholds `K`, slot `i` of the counter array
 counts the queries that have a ground-truth positive among their first
 `K[j]` predictions for some threshold position `j <= i`. The counts are
 finally turned into percentages of the number of queries.
 */
module RecallScoring {

  /** `pred[:n]`: the first `n` predictions, or all of them when the row is shorter. */
  function Prefix(pred: seq<int>, n: nat): (r: seq<int>)
    ensures r <= pred
    ensures |r| == if n <= |pred| then n else |pred|
  {
    if n <= |pred| then pred[..n] else pred
  }

  /** `np.any(np.in1d(pred[:n], positives))`: some of the first `n`
      predictions is one of the query's positives. Pure membership, so the
      order and multiplicity of `positives` do not matter. */
  predicate Hit(pred: seq<int>, n: nat, positives: seq<int>)
  {
    exists x :: x in Prefix(pred, n) && x in positives
  }

  /** The query is credited in slot `i`: the threshold at some position
      `j <= i` already retrieves a positive. */
  predicate CreditedAt(pred: seq<int>, K: seq<nat>, positives: seq<int>, i: nat)
  {
    exists j :: 0 <= j <= i && j < |K| && Hit(pred, K[j], positives)
  }

  /** Number of the queries in `preds` credited in slot `i`; query `q` is
      judged against `positives[q]`. */
  function Count(preds: seq<seq<int>>, K: seq<nat>, positives: seq<seq<int>>, i: nat): nat
    requires |preds| <= |positives|
  {
    if preds == [] then 0
    else
      var last := |preds| - 1;
      Count(preds[..last], K, positives, i)
        + (if CreditedAt(preds[last], K, positives[last], i) then 1 else 0)
  }

  /** The whole counter array: one slot per threshold. */
  function Counts(preds: seq<seq<int>>, K: seq<nat>, positives: seq<seq<int>>): seq<int>
    requires |preds| <= |positives|
  {
    seq(|K|, i requires 0 <= i < |K| => Count(preds, K, positives, i))
  }

  /** Position of the first threshold whose prefix retrieves a positive,
      or `|K|` when none does. */
  function FirstHit(pred: seq<int>, K: seq<nat>, positives: seq<int>): (r: nat)
    ensures r <= |K|
    ensures r < |K| ==> Hit(pred, K[r], positives)
    ensures forall j :: 0 <= j < r ==> !Hit(pred, K[j], positives)
  {
    if K == [] then 0
    else if Hit(pred, K[0], positives) then 0
    else 1 + FirstHit(pred, K[1..], positives)
  }

  /** The scoring loop. `recalls` starts as a zero array with one slot per
      threshold; each query scans the thresholds in order and, at the first
      one that retrieves a positive, adds 1 to that slot and every later slot,
      then stops scanning. */
  method Score(preds: seq<seq<int>>, K: seq<nat>, positives: seq<seq<int>>) returns (recalls: array<int>)
    requires |preds| <= |positives|
    ensures fresh(recalls)
    ensures recalls.Length == |K|
    ensures recalls[..] == Counts(preds, K, positives)
  {
    recalls := new int[|K|](_ => 0);
    var q := 0;
    while q < |preds|
      invariant 0 <= q <= |preds|
      invariant recalls.Length == |K|
      invariant recalls[..] == Counts(preds[..q], K, positives)
    {
      var pred := preds[q];
      assert preds[..q + 1] == preds[..q] + [pred];
      forall k: nat
        ensures Count(preds[..q + 1], K, positives, k)
                == Count(preds[..q], K, positives, k) + (if CreditedAt(pred, K, positives[q], k) then 1 else 0)
      {
        CountAppend(preds[..q], pred, K, positives, k);
      }
      ghost var credited := false;
      var i := 0;
      while i < |K|
        invariant 0 <= i <= |K|
        invariant forall j :: 0 <= j < i ==> !Hit(pred, K[j], positives[q])
        invariant recalls[..] == Counts(preds[..q], K, positives)
      {
        if Hit(pred, K[i], positives[q]) {
          forall k | i <= k < recalls.Length {
            recalls[k] := recalls[k] + 1;
          }
          credited := true;
          assert i == FirstHit(pred, K, positives[q]);
          forall k | 0 <= k < |K|
            ensures CreditedAt(pred, K, positives[q], k) <==> i <= k
          {
            CreditedIffFirstHit(pred, K, positives[q], k);
          }
          break;
        }
        i := i + 1;
      }
      if !credited {
        assert FirstHit(pred, K, positives[q]) == |K|;
        forall k | 0 <= k < |K|
          ensures !CreditedAt(pred, K, positives[q], k)
        {
          CreditedIffFirstHit(pred, K, positives[q], k);
        }
      }
      q := q + 1;
    }
    assert preds[..q] == preds;
  }

  /** Appending one query adds exactly 1 to slot `i` when that query is
      credited there, and changes nothing otherwise. */
  lemma CountAppend(preds: seq<seq<int>>, p: seq<int>, K: seq<nat>, positives: seq<seq<int>>, i: nat)
    requires |preds| < |positives|
    ensures Count(preds + [p], K, positives, i)
      == Count(preds, K, positives, i) + (if CreditedAt(p, K, positives[|preds|], i) then 1 else 0)
  {
  }

  /** A query is credited in slot `i` exactly when its first hit is at
      position `i` or earlier. */
  lemma CreditedIffFirstHit(pred: seq<int>, K: seq<nat>, positives: seq<int>, i: nat)
    requires i < |K|
    ensures CreditedAt(pred, K, positives, i) <==> FirstHit(pred, K, positives) <= i
  {
  }

  /** Counts never decrease from one slot to a later one. */
  lemma {:induction false} CountMonotone(preds: seq<seq<int>>, K: seq<nat>, positives: seq<seq<int>>, i: nat, j: nat)
    requires |preds| <= |positives|
    requires i <= j
    ensures Count(preds, K, positives, i) <= Count(preds, K, positives, j)
  {
    if preds != [] {
      var last := |preds| - 1;
      CountMonotone(preds[..last], K, positives, i, j);
      if CreditedAt(preds[last], K, positives[last], i) {
        var w :| 0 <= w <= i && w < |K| && Hit(preds[last], K[w], positives[last]);
        assert CreditedAt(preds[last], K, positives[last], j);
      }
    }
  }

  /** Each query contributes at most once, so no slot exceeds the number of
      prediction rows. */
  lemma {:induction false} CountBounded(preds: seq<seq<int>>, K: seq<nat>, positives: seq<seq<int>>, i: nat)
    requires |preds| <= |positives|
    ensures Count(preds, K, positives, i) <= |preds|
  {
    if preds != [] {
      CountBounded(preds[..|preds| - 1], K, positives, i);
    }
  }

  /** The scored counter array is non-decreasing and every slot lies
      between 0 and the number of prediction rows. */
  lemma CountsSortedAndBounded(preds: seq<seq<int>>, K: seq<nat>, positives: seq<seq<int>>)
    requires |preds| <= |positives|
    ensures forall i, j :: 0 <= i <= j < |K| ==> Counts(preds, K, positives)[i] <= Counts(preds, K, positives)[j]
    ensures forall i :: 0 <= i < |K| ==> 0 <= Counts(preds, K, positives)[i] <= |preds|
  {
    forall i, j | 0 <= i <= j < |K|
      ensures Counts(preds, K, positives)[i] <= Counts(preds, K, positives)[j]
    {
      CountMonotone(preds, K, positives, i, j);
    }
    forall i | 0 <= i < |K|
      ensures Counts(preds, K, positives)[i] <= |preds|
    {
      CountBounded(preds, K, positives, i);
    }
  }

  /** A query whose positive set is empty never hits, so appending it leaves
      every slot unchanged. */
  lemma EmptyPositivesAddNothing(preds: seq<seq<int>>, p: seq<int>, K: seq<nat>, positives: seq<seq<int>>, i: nat)
    requires |preds| < |positives|
    requires positives[|preds|] == []
    ensures Count(preds + [p], K, positives, i) == Count(preds, K, positives, i)
  {
  }

  /** When no query retrieves a positive within any threshold, every slot
      stays at zero. */
  lemma {:induction false} NoHitsAllZero(preds: seq<seq<int>>, K: seq<nat>, positives: seq<seq<int>>, i: nat)
    requires |preds| <= |positives|
    requires forall q, j :: 0 <= q < |preds| && 0 <= j < |K| ==> !Hit(preds[q], K[j], positives[q])
    ensures Count(preds, K, positives, i) == 0
  {
    if preds != [] {
      var last := |preds| - 1;
      NoHitsAllZero(preds[..last], K, positives, i);
      assert !CreditedAt(preds[last], K, positives[last], i);
    }
  }

  /** `a` and `b` hold the same indices, possibly in another order or with
      repetitions. */
  ghost predicate SameMembers(a: seq<int>, b: seq<int>)
  {
    forall x :: x in a <==> x in b
  }

  /** Membership is all that is tested: replacing each query's positive list by
      one with the same members (reordered, duplicates added or removed)
      leaves every count unchanged. */
  lemma {:induction false} SameMembersSameCount(preds: seq<seq<int>>, K: seq<nat>, positives: seq<seq<int>>,
                                                positives': seq<seq<int>>, i: nat)
    requires |preds| <= |positives| && |preds| <= |positives'|
    requires forall q :: 0 <= q < |preds| ==> SameMembers(positives[q], positives'[q])
    ensures Count(preds, K, positives, i) == Count(preds, K, positives', i)
  {
    if preds != [] {
      var last := |preds| - 1;
      SameMembersSameCount(preds[..last], K, positives, positives', i);
      forall j | 0 <= j < |K|
        ensures Hit(preds[last], K[j], positives[last]) == Hit(preds[last], K[j], positives'[last])
      {
        assert SameMembers(positives[last], positives'[last]);
      }
      assert CreditedAt(preds[last], K, positives[last], i) == CreditedAt(preds[last], K, positives'[last], i);
    }
  }

  /** When every threshold is at least 1 and every query's top prediction is
      a positive, every slot counts every query. */
  lemma {:induction false} TopHitsCountAll(preds: seq<seq<int>>, K: seq<nat>, positives: seq<seq<int>>, i: nat)
    requires |preds| <= |positives|
    requires forall j :: 0 <= j < |K| ==> K[j] >= 1
    requires forall q :: 0 <= q < |preds| ==> |preds[q]| > 0 && preds[q][0] in positives[q]
    requires i < |K|
    ensures Count(preds, K, positives, i) == |preds|
  {
    if preds != [] {
      var last := |preds| - 1;
      TopHitsCountAll(preds[..last], K, positives, i);
      var top := preds[last][0];
      assert top in Prefix(preds[last], K[0]);
      assert Hit(preds[last], K[0], positives[last]);
    }
  }

  /** `recalls / queries_num * 100`, in exact arithmetic. */
  function Percentages(counts: seq<int>, queriesNum: int): (r: seq<real>)
    requires queriesNum != 0
    ensures |r| == |counts|
  {
    seq(|counts|, i requires 0 <= i < |counts| => counts[i] as real / queriesNum as real * 100.0)
  }

  /** A count `c` out of `n > 0` queries, with `0 <= c <= n`, is a percentage
      in [0, 100], and it is 100 exactly when `c == n`. */
  lemma PercentageInRange(c: int, n: int)
    requires 0 <= c <= n && n > 0
    ensures 0.0 <= c as real / n as real * 100.0 <= 100.0
    ensures c as real / n as real * 100.0 == 100.0 <==> c == n
  {
  }

  /** With `queries_num` equal to the number of prediction rows, every
      scaled recall lies in [0, 100]. */
  lemma ScaledRecallsInRange(preds: seq<seq<int>>, K: seq<nat>, positives: seq<seq<int>>, queriesNum: int)
    requires |preds| <= |positives|
    requires queriesNum == |preds| > 0
    ensures |Percentages(Counts(preds, K, positives), queriesNum)| == |K|
    ensures forall i :: 0 <= i < |K| ==> 0.0 <= Percentages(Counts(preds, K, positives), queriesNum)[i] <= 100.0
  {
    forall i | 0 <= i < |K|
      ensures 0.0 <= Percentages(Counts(preds, K, positives), queriesNum)[i] <= 100.0
    {
      CountBounded(preds, K, positives, i);
      PercentageInRange(Count(preds, K, positives, i), queriesNum);
    }
  }

  /** When every query's top prediction is a positive and every threshold is
      at least 1, every scaled recall is 100. */
  lemma TopHitsFullRecall(preds: seq<seq<int>>, K: seq<nat>, positives: seq<seq<int>>, queriesNum: int)
    requires |preds| <= |positives|
    requires queriesNum == |preds| > 0
    requires forall j :: 0 <= j < |K| ==> K[j] >= 1
    requires forall q :: 0 <= q < |preds| ==> |preds[q]| > 0 && preds[q][0] in positives[q]
    ensures Percentages(Counts(preds, K, positives), queriesNum) == seq(|K|, _ => 100.0)
  {
    forall i | 0 <= i < |K|
      ensures Percentages(Counts(preds, K, positives), queriesNum)[i] == 100.0
    {
      TopHitsCountAll(preds, K, positives, i);
      PercentageInRange(Count(preds, K, positives, i), queriesNum);
    }
  }
}
