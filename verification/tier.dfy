/**
 The tier ladder: a player's tournament point total places them in one of five
 ascending skill bands, and each band has a numeric weight used for ordering.
 */
module Tier {

  /** Tier names from the lowest band to the highest. */
  const Ladder: seq<string> := ["BRONZE", "SILVER", "GOLD", "PLATINUM", "DIAMOND"]

  /** Point totals at which a player climbs a band: reaching Thresholds[i]
      lifts a player from Ladder[i] to Ladder[i + 1]. */
  const Thresholds: seq<int> := [100, 250, 500, 900]

  /** How many of the thresholds `ts` the total `points` has reached. */
  function Reached(ts: seq<int>, points: int): (n: nat)
    ensures n <= |ts|
  {
    if |ts| == 0 then 0
    else (if ts[0] <= points then 1 else 0) + Reached(ts[1..], points)
  }

  /** The band a point total falls into; totals below the first threshold,
      including negative ones, are BRONZE. */
  function CalculateTier(points: int): (tier: string)
    ensures tier == Ladder[Reached(Thresholds, points)]
    ensures 1 <= TierWeight(tier) <= 5
  {
    ThresholdsReached(points);
    if points >= 900 then "DIAMOND"
    else if points >= 500 then "PLATINUM"
    else if points >= 250 then "GOLD"
    else if points >= 100 then "SILVER"
    else "BRONZE"
  }

  /** The thresholds a total has reached, counted one rung at a time. */
  lemma ThresholdsReached(points: int)
    ensures Reached(Thresholds, points)
            == (if points >= 900 then 4 else if points >= 500 then 3
                else if points >= 250 then 2 else if points >= 100 then 1 else 0)
  {
    var t3 := [900];
    var t2 := [500] + t3;
    var t1 := [250] + t2;
    assert Thresholds == [100] + t1;
    assert t3[1..] == [] && t2[1..] == t3 && t1[1..] == t2 && Thresholds[1..] == t1;
    assert Reached(t3, points) == (if points >= 900 then 1 else 0);
    assert Reached(t2, points) == (if points >= 500 then 1 else 0) + Reached(t3, points);
    assert Reached(t1, points) == (if points >= 250 then 1 else 0) + Reached(t2, points);
  }

  /** The weight of a tier name: its 1-based rung on the ladder, or 0 for any
      string that is not a tier. */
  function TierWeight(tier: string): (w: int)
    ensures tier in Ladder ==> 1 <= w <= |Ladder| && Ladder[w - 1] == tier
    ensures tier !in Ladder ==> w == 0
  {
    if tier == "BRONZE" then 1
    else if tier == "SILVER" then 2
    else if tier == "GOLD" then 3
    else if tier == "PLATINUM" then 4
    else if tier == "DIAMOND" then 5
    else 0
  }

  /** A total lies in band i exactly when it has reached the threshold below
      that band and not the one above it. */
  lemma TierBand(points: int, i: nat)
    requires i < |Ladder|
    ensures CalculateTier(points) == Ladder[i]
            <==> (i == 0 || Thresholds[i - 1] <= points) && (i == |Ladder| - 1 || points < Thresholds[i])
  {
    var n := Reached(Thresholds, points);
    assert Ladder[n] == Ladder[i] <==> n == i;
  }

  /** Reaching more points never reaches fewer thresholds. */
  lemma {:induction false} ReachedMonotone(ts: seq<int>, p: int, q: int)
    requires p <= q
    ensures Reached(ts, p) <= Reached(ts, q)
  {
    if |ts| > 0 {
      ReachedMonotone(ts[1..], p, q);
    }
  }

  /** More points never mean a lower tier. */
  lemma TierMonotone(p: int, q: int)
    requires p <= q
    ensures TierWeight(CalculateTier(p)) <= TierWeight(CalculateTier(q))
  {
    ReachedMonotone(Thresholds, p, q);
    var i, j := Reached(Thresholds, p), Reached(Thresholds, q);
    assert TierWeight(Ladder[i]) == i + 1 && TierWeight(Ladder[j]) == j + 1;
  }
}
