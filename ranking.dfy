/** The ranking step of `search` (chatbot_main.py): `sims.argsort()[-k:][::-1]`,
    the indices of the `k` highest similarity scores, best first. Scores are
    abstract integers standing for the cosine similarities. */
module Ranking {
  import opened PySeq

  ghost predicate InRange(xs: seq<nat>, n: nat) {
    forall p :: 0 <= p < |xs| ==> xs[p] < n
  }

  ghost predicate Distinct(xs: seq<nat>) {
    forall p, q :: 0 <= p < q < |xs| ==> xs[p] != xs[q]
  }

  /** Scores do not decrease along `order`. */
  ghost predicate Ascending(scores: seq<int>, order: seq<nat>)
    requires InRange(order, |scores|)
  {
    forall p, q :: 0 <= p < q < |order| ==> scores[order[p]] <= scores[order[q]]
  }

  /** `order` is a result numpy's `scores.argsort()` may give: every index of
      `scores` exactly once, in non-decreasing order of score. The default sort
      is not stable, so equal scores may come in any order. */
  ghost predicate IsArgsort(scores: seq<int>, order: seq<nat>) {
    && |order| == |scores|
    && InRange(order, |scores|)
    && (forall i :: 0 <= i < |scores| ==> i in order)
    && Distinct(order)
    && Ascending(scores, order)
  }

  /** `idx` lists distinct indices of `scores`, best first, and no index left
      out of `idx` scores higher than one in it. */
  ghost predicate IsTopRanking(scores: seq<int>, idx: seq<nat>) {
    && InRange(idx, |scores|)
    && Distinct(idx)
    && (forall t, u :: 0 <= t < u < |idx| ==> scores[idx[t]] >= scores[idx[u]])
    && (forall i, t :: 0 <= i < |scores| && i !in idx && 0 <= t < |idx| ==> scores[i] <= scores[idx[t]])
  }

  /** How many indices `order[-k:]` keeps of `n`: the last `k` when `k > 0`,
      all of them when `k == 0` (`-0 == 0`), all but the first `-k` when `k < 0`. */
  function TopKCount(k: int, n: nat): nat {
    if k > 0 then (if k < n then k else n)
    else if k == 0 then n
    else if n + k > 0 then n + k
    else 0
  }

  /** `order[-k:][::-1]`: the last `TopKCount(k, n)` entries of `order`,
      the last one first. */
  function TopK(order: seq<nat>, k: int): (r: seq<nat>)
    ensures |r| == TopKCount(k, |order|)
    ensures forall t :: 0 <= t < |r| ==> r[t] == order[|order| - 1 - t]
  {
    var n := |order|;
    var lo := SliceBound(-k, n);
    assert Slice(order, -k, n) == order[lo..n];
    Reverse(Slice(order, -k, n))
  }

  /** Taking the top of any admissible argsort gives `TopKCount(k, n)`
      distinct indices in non-increasing score order, and no index left out
      scores higher than one that was taken. */
  lemma TopKIsTopRanking(scores: seq<int>, order: seq<nat>, k: int)
    requires IsArgsort(scores, order)
    ensures |TopK(order, k)| == TopKCount(k, |scores|)
    ensures IsTopRanking(scores, TopK(order, k))
  {
    var n := |order|;
    var lo := SliceBound(-k, n);
    var r := TopK(order, k);
    assert Slice(order, -k, n) == order[lo..];
    assert |r| == n - lo;
    assert forall t :: 0 <= t < |r| ==> r[t] == order[n - 1 - t];
    assert forall p :: lo <= p < n ==> order[p] in r by {
      forall p | lo <= p < n ensures order[p] in r {
        assert r[n - 1 - p] == order[p];
      }
    }
    forall i, t | 0 <= i < |scores| && i !in r && 0 <= t < |r|
      ensures scores[i] <= scores[r[t]]
    {
      assert i in order;
      var p :| 0 <= p < n && order[p] == i;
      assert p < n - 1 - t;
      assert scores[order[p]] <= scores[order[n - 1 - t]];
    }
  }

  // ---------------------------------------------------------------------------
  // One admissible argsort
  // ---------------------------------------------------------------------------

  /** Inserts index `i` after every entry whose score is at most `scores[i]`. */
  function Insert(scores: seq<int>, order: seq<nat>, i: nat): (r: seq<nat>)
    requires i < |scores| && InRange(order, |scores|) && Ascending(scores, order)
    ensures |r| == |order| + 1
    ensures InRange(r, |scores|)
    ensures forall x: nat :: x in r <==> x in order || x == i
    ensures Ascending(scores, r)
  {
    if order == [] then [i]
    else if scores[i] < scores[order[0]] then [i] + order
    else
      var rest := Insert(scores, order[1..], i);
      assert forall q :: 0 <= q < |rest| ==> scores[order[0]] <= scores[rest[q]] by {
        forall q | 0 <= q < |rest| ensures scores[order[0]] <= scores[rest[q]] {
          assert rest[q] in rest;
          if rest[q] != i {
            var p :| 0 <= p < |order[1..]| && order[1..][p] == rest[q];
            assert order[p + 1] == rest[q];
          }
        }
      }
      [order[0]] + rest
  }

  lemma {:induction false} InsertKeepsDistinct(scores: seq<int>, order: seq<nat>, i: nat)
    requires i < |scores| && InRange(order, |scores|) && Ascending(scores, order)
    requires Distinct(order) && i !in order
    ensures Distinct(Insert(scores, order, i))
  {
    if order != [] && scores[order[0]] <= scores[i] {
      assert forall p :: 0 <= p < |order[1..]| ==> order[1..][p] == order[p + 1];
      InsertKeepsDistinct(scores, order[1..], i);
      assert order[0] !in order[1..];
    }
  }

  /** Indices `0 .. m-1` ordered by score, equal scores by index. */
  function ArgsortPrefix(scores: seq<int>, m: nat): (order: seq<nat>)
    requires m <= |scores|
    ensures |order| == m
    ensures InRange(order, m)
    ensures forall x: nat :: x in order <==> x < m
    ensures Distinct(order)
    ensures Ascending(scores, order)
  {
    if m == 0 then []
    else
      var prev := ArgsortPrefix(scores, m - 1);
      assert InRange(prev, |scores|);
      InsertKeepsDistinct(scores, prev, m - 1);
      var r := Insert(scores, prev, m - 1);
      assert forall p :: 0 <= p < |r| ==> r[p] in r;
      r
  }

  /** A stable argsort: one of the orders numpy's `argsort` may return. */
  function Argsort(scores: seq<int>): (order: seq<nat>)
    ensures IsArgsort(scores, order)
  {
    ArgsortPrefix(scores, |scores|)
  }
}
