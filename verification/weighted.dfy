/** The weighted choice of `createDna`: a draw `r` in `[0, totalWeight)` is
    walked down the element list, subtracting each weight until it drops
    below zero. */
module Weighted {
  import opened Wrappers
  import opened Elements

  /** The sum of the weights of the first `i` elements. */
  function PrefixWeight(es: seq<Element>, i: nat): nat
    requires i <= |es|
    decreases i
  {
    if i == 0 then 0 else PrefixWeight(es, i - 1) + es[i - 1].weight
  }

  /** `totalWeight` of a layer. */
  function TotalWeight(es: seq<Element>): nat {
    PrefixWeight(es, |es|)
  }

  /** `Math.floor(Math.random() * totalWeight)`, where the random number is
      the draw `k` reduced to the range; a layer of total weight 0 always
      draws 0. */
  function LayerDraw(totalWeight: nat, k: nat): (r: nat)
    ensures totalWeight > 0 ==> r < totalWeight
    ensures totalWeight == 0 ==> r == 0
  {
    if totalWeight == 0 then 0 else k % totalWeight
  }

  /** The loop of `createDna`, started at element `i` with `random` left:
      `random -= weight; if (random < 0) pick`. */
  function Walk(es: seq<Element>, random: int, i: nat): (pick: Option<nat>)
    requires i <= |es|
    ensures pick.Some? ==> i <= pick.value < |es|
    decreases |es| - i
  {
    if i == |es| then None
    else if random - es[i].weight < 0 then Some(i)
    else Walk(es, random - es[i].weight, i + 1)
  }

  /** Reference definition of the pick: `r` falls in element `i`'s interval
      `[w0 + ... + w(i-1), w0 + ... + wi)`. */
  predicate InInterval(es: seq<Element>, r: nat, i: nat) {
    i < |es| && PrefixWeight(es, i) <= r < PrefixWeight(es, i + 1)
  }

  lemma {:induction false} PrefixWeightMonotone(es: seq<Element>, i: nat, j: nat)
    requires i <= j <= |es|
    ensures PrefixWeight(es, i) <= PrefixWeight(es, j)
    decreases j - i
  {
    if i < j {
      PrefixWeightMonotone(es, i, j - 1);
    }
  }

  lemma {:induction false} WalkFrom(es: seq<Element>, r: nat, i: nat)
    requires i <= |es| && PrefixWeight(es, i) <= r
    ensures Walk(es, r - PrefixWeight(es, i), i).Some? ==>
      var k := Walk(es, r - PrefixWeight(es, i), i).value;
      i <= k && InInterval(es, r, k)
    ensures Walk(es, r - PrefixWeight(es, i), i).None? ==> TotalWeight(es) <= r
    decreases |es| - i
  {
    if i < |es| && r - PrefixWeight(es, i) - es[i].weight >= 0 {
      WalkFrom(es, r, i + 1);
    }
  }

  /** Intervals of distinct elements do not overlap. */
  lemma IntervalUnique(es: seq<Element>, r: nat, i: nat, j: nat)
    requires InInterval(es, r, i) && InInterval(es, r, j)
    ensures i == j
  {
    if i < j {
      PrefixWeightMonotone(es, i + 1, j);
    } else if j < i {
      PrefixWeightMonotone(es, j + 1, i);
    }
  }

  /** The walk picks exactly the element whose interval holds `r`, which is
      the least `i` with `r < w0 + ... + wi` (every shorter prefix sum is at
      most `r`); it picks nothing exactly when
      `r` reaches the total weight. */
  lemma WalkPicksInterval(es: seq<Element>, r: nat)
    ensures forall i: nat :: Walk(es, r, 0) == Some(i) <==> InInterval(es, r, i)
    ensures Walk(es, r, 0).None? <==> TotalWeight(es) <= r
    ensures Walk(es, r, 0).Some? ==>
      forall j :: 0 <= j <= Walk(es, r, 0).value ==> PrefixWeight(es, j) <= r
  {
    WalkFrom(es, r, 0);
    forall i: nat | InInterval(es, r, i)
      ensures Walk(es, r, 0) == Some(i)
    {
      PrefixWeightMonotone(es, i + 1, |es|);
      IntervalUnique(es, r, Walk(es, r, 0).value, i);
    }
    if Walk(es, r, 0).Some? {
      var k := Walk(es, r, 0).value;
      PrefixWeightMonotone(es, k + 1, |es|);
      forall j | 0 <= j <= k
        ensures PrefixWeight(es, j) <= r
      {
        PrefixWeightMonotone(es, j, k);
      }
    }
  }

  /** With a draw reduced to the range, a layer of positive total weight
      always yields an element, and one of weight 0 is never yielded. */
  lemma DrawPicks(es: seq<Element>, k: nat)
    ensures TotalWeight(es) > 0 <==> Walk(es, LayerDraw(TotalWeight(es), k), 0).Some?
    ensures forall i: nat :: Walk(es, LayerDraw(TotalWeight(es), k), 0) == Some(i) ==> i < |es| && es[i].weight > 0
  {
    var r := LayerDraw(TotalWeight(es), k);
    WalkPicksInterval(es, r);
  }
}
