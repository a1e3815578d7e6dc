/** The rarity weight table and the weighted pick over it.

    The pick follows `random.choices` with weights: the running sums of the
    weights are formed, a point `r` in `[0, total)` is drawn, and the first
    entry whose running sum exceeds `r` wins (a right bisection). The random
    point is an input here. All weights are doubled so that they are whole
    numbers (80, 16, 3, 1, 0.5 become 160, 32, 6, 2, 1); since the running sums
    are then integers, comparing them with a real point `y` gives the same
    answer as comparing them with `floor(y)`, so an integer `r` loses nothing. */
module Weights {

  /** Tag and weight, in the table's insertion order. */
  type Table = seq<(string, nat)>

  const RarityWeights: Table := [
    ("Mil-Spec", 160),
    ("Restricted", 32),
    ("Classified", 6),
    ("Covert", 2),
    ("Exceedingly Rare", 1)
  ]

  /** The keys of `rarity_weights`. */
  const RarityKeys: set<string> := set i | 0 <= i < |RarityWeights| :: RarityWeights[i].0

  /** Sum of the first `n` weights; `Prefix(t, j + 1)` is Python's `cum_weights[j]`. */
  function Prefix(t: Table, n: nat): nat
    requires n <= |t|
  {
    if n == 0 then 0 else t[0].1 + Prefix(t[1..], n - 1)
  }

  function Total(t: Table): nat {
    Prefix(t, |t|)
  }

  const TotalWeight: nat := Total(RarityWeights)

  /** Index of the entry chosen for the point `r`: the one whose running-sum
      interval `[Prefix(t, i), Prefix(t, i + 1))` holds `r`. */
  function Bisect(t: Table, r: nat): (i: nat)
    requires r < Total(t)
    ensures i < |t|
    ensures Prefix(t, i) <= r < Prefix(t, i + 1)
  {
    if r < t[0].1 then 0 else 1 + Bisect(t[1..], r - t[0].1)
  }

  /** `random.choices(rarities, weights=weights, k=1)[0]` for the point `r`. */
  function ChooseRarity(r: nat): (tag: string)
    requires r < TotalWeight
    ensures tag in RarityKeys
  {
    RarityWeights[Bisect(RarityWeights, r)].0
  }

  lemma {:induction false} PrefixStep(t: Table, i: nat)
    requires i < |t|
    ensures Prefix(t, i + 1) == Prefix(t, i) + t[i].1
  {
    if i > 0 {
      PrefixStep(t[1..], i - 1);
    }
  }

  /** Running sums never decrease. */
  lemma {:induction false} PrefixMonotone(t: Table, a: nat, b: nat)
    requires a <= b <= |t|
    ensures Prefix(t, a) <= Prefix(t, b)
  {
    if a < b {
      PrefixMonotone(t, a, b - 1);
      PrefixStep(t, b - 1);
    }
  }

  /** The pick is exactly the entry whose interval holds `r` (both directions). */
  lemma BisectIff(t: Table, r: nat, i: nat)
    requires r < Total(t) && i < |t|
    ensures Bisect(t, r) == i <==> Prefix(t, i) <= r < Prefix(t, i + 1)
  {
    var k := Bisect(t, r);
    if Prefix(t, i) <= r < Prefix(t, i + 1) {
      if k < i {
        PrefixMonotone(t, k + 1, i);
      } else if i < k {
        PrefixMonotone(t, i + 1, k);
      }
    }
  }

  /** Every entry of positive weight is picked for some point. */
  lemma Reachable(t: Table, i: nat)
    requires i < |t| && t[i].1 > 0
    ensures Prefix(t, i) < Total(t) && Bisect(t, Prefix(t, i)) == i
  {
    PrefixStep(t, i);
    PrefixMonotone(t, i + 1, |t|);
    BisectIff(t, Prefix(t, i), i);
  }

  lemma RarityPrefixes()
    ensures Prefix(RarityWeights, 0) == 0
    ensures Prefix(RarityWeights, 1) == 160
    ensures Prefix(RarityWeights, 2) == 192
    ensures Prefix(RarityWeights, 3) == 198
    ensures Prefix(RarityWeights, 4) == 200
    ensures Prefix(RarityWeights, 5) == 201
  {
  }

  /** The doubled weights add up to 201 (twice 100.5), and every key has positive weight. */
  lemma TableShape()
    ensures TotalWeight == 201
    ensures |RarityWeights| == 5
    ensures forall i :: 0 <= i < |RarityWeights| ==> RarityWeights[i].1 > 0 && RarityWeights[i].0 in RarityKeys
    ensures forall k :: k in RarityKeys <==> exists i :: 0 <= i < |RarityWeights| && RarityWeights[i].0 == k
    ensures RarityKeys == {"Mil-Spec", "Restricted", "Classified", "Covert", "Exceedingly Rare"}
  {
  }

  /** Each of the five rarities is chosen for some point in `[0, 201)`. */
  lemma EveryRarityReachable(tag: string)
    requires tag in RarityKeys
    ensures exists r: nat :: r < TotalWeight && ChooseRarity(r) == tag
  {
    TableShape();
    var i :| 0 <= i < |RarityWeights| && RarityWeights[i].0 == tag;
    Reachable(RarityWeights, i);
    var r := Prefix(RarityWeights, i);
    assert ChooseRarity(r) == tag;
  }

  /** The point ranges of the five rarities, that is the relative weights
      160 : 32 : 6 : 2 : 1 out of 201. */
  lemma RarityRanges(r: nat)
    requires r < TotalWeight
    ensures ChooseRarity(r) == "Mil-Spec" <==> r < 160
    ensures ChooseRarity(r) == "Restricted" <==> 160 <= r < 192
    ensures ChooseRarity(r) == "Classified" <==> 192 <= r < 198
    ensures ChooseRarity(r) == "Covert" <==> 198 <= r < 200
    ensures ChooseRarity(r) == "Exceedingly Rare" <==> r == 200
  {
    RarityPrefixes();
    var i := Bisect(RarityWeights, r);
    BisectIff(RarityWeights, r, 0);
    BisectIff(RarityWeights, r, 1);
    BisectIff(RarityWeights, r, 2);
    BisectIff(RarityWeights, r, 3);
    BisectIff(RarityWeights, r, 4);
  }
}
