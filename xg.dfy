/**
 * Expected-goal estimate of one shot event: an explicit value supplied with
 * the event wins; without one, a step function of the shot distance applies,
 * and a shot without a distance is worth nothing.
 */
module ExpectedGoals {
  import opened Wrappers

  /** The two keys of a shot event the estimate reads. */
  datatype XgFields = XgFields(expectedGoals: Option<real>, distance: Option<real>)

  /**
   * The distance tiers as a table: (inclusive upper distance, probability),
   * nearest tier first; shots beyond the last tier get `BeyondLastTier`.
   */
  const Tiers: seq<(real, real)> := [(10.0, 0.20), (20.0, 0.12), (30.0, 0.08), (40.0, 0.04)]
  const BeyondLastTier: real := 0.02

  /** The probability of a shot taken from distance `d`, tier by tier. */
  function DistanceTier(d: real): real
  {
    if d <= 10.0 then 0.20
    else if d <= 20.0 then 0.12
    else if d <= 30.0 then 0.08
    else if d <= 40.0 then 0.04
    else 0.02
  }

  /** The estimate for one shot event. */
  function EstimateXg(ev: XgFields): (x: real)
    ensures ev.expectedGoals.Some? ==> x == ev.expectedGoals.value
    ensures ev.expectedGoals.None? && ev.distance.None? ==> x == 0.0
    ensures ev.expectedGoals.None? && ev.distance.Some? ==>
      x in {0.20, 0.12, 0.08, 0.04, 0.02} && x == Lookup(Tiers, BeyondLastTier, ev.distance.value)
  {
    match ev.expectedGoals
    case Some(value) => value
    case None =>
      match ev.distance
      case None => 0.0
      case Some(dist) =>
        DistanceTierIsLookup(dist);
        DistanceTier(dist)
  }

  /**
   * Reference reading of a tier table: the probability of the first tier whose
   * bound covers `d`, or `beyond` when none does.
   */
  function Lookup(table: seq<(real, real)>, beyond: real, d: real): (p: real)
    ensures p == beyond || exists i :: 0 <= i < |table| && d <= table[i].0 && p == table[i].1
  {
    if table == [] then beyond
    else if d <= table[0].0 then table[0].1
    else Lookup(table[1..], beyond, d)
  }

  /** Tier probabilities never increase outwards and never drop below `beyond`. */
  predicate NonIncreasingTiers(table: seq<(real, real)>, beyond: real)
  {
    (forall i, j :: 0 <= i < j < |table| ==> table[i].1 >= table[j].1) &&
    (forall i :: 0 <= i < |table| ==> table[i].1 >= beyond)
  }

  /** A table whose probabilities do not increase outwards gives a non-increasing step function. */
  lemma {:induction false} LookupMonotone(table: seq<(real, real)>, beyond: real, d1: real, d2: real)
    requires NonIncreasingTiers(table, beyond)
    requires d1 <= d2
    ensures Lookup(table, beyond, d1) >= Lookup(table, beyond, d2)
  {
    if table != [] {
      var rest := table[1..];
      assert NonIncreasingTiers(rest, beyond) by {
        forall i, j | 0 <= i < j < |rest| ensures rest[i].1 >= rest[j].1 {
          assert rest[i] == table[i + 1] && rest[j] == table[j + 1];
        }
      }
      if d2 <= table[0].0 {
      } else if d1 <= table[0].0 {
        var p := Lookup(rest, beyond, d2);
        if p != beyond {
          var i :| 0 <= i < |rest| && d2 <= rest[i].0 && p == rest[i].1;
          assert rest[i] == table[i + 1];
        }
      } else {
        LookupMonotone(rest, beyond, d1, d2);
      }
    }
  }

  /** The if-chain and the tier table agree on every distance. */
  lemma DistanceTierIsLookup(d: real)
    ensures DistanceTier(d) == Lookup(Tiers, BeyondLastTier, d)
  {
    var t0 := Tiers;
    var t1, t2, t3 := t0[1..], t0[1..][1..], t0[1..][1..][1..];
    var t4 := t3[1..];
    assert t1 == [(20.0, 0.12), (30.0, 0.08), (40.0, 0.04)];
    assert t2 == [(30.0, 0.08), (40.0, 0.04)];
    assert t3 == [(40.0, 0.04)] && t4 == [];
    var b := BeyondLastTier;
    assert Lookup(t4, b, d) == 0.02;
    assert Lookup(t3, b, d) == if d <= 40.0 then 0.04 else 0.02;
    assert Lookup(t2, b, d) == if d <= 30.0 then 0.08 else Lookup(t3, b, d);
    assert Lookup(t1, b, d) == if d <= 20.0 then 0.12 else Lookup(t2, b, d);
  }

  /** Farther shots are never worth more. */
  lemma DistanceTierMonotone(d1: real, d2: real)
    requires d1 <= d2
    ensures DistanceTier(d1) >= DistanceTier(d2)
    ensures 0.02 <= DistanceTier(d2) <= DistanceTier(d1) <= 0.20
  {
    DistanceTierIsLookup(d1);
    DistanceTierIsLookup(d2);
    TiersNonIncreasing();
    LookupMonotone(Tiers, BeyondLastTier, d1, d2);
  }

  /** The tier table's probabilities fall from tier to tier. */
  lemma TiersNonIncreasing()
    ensures NonIncreasingTiers(Tiers, BeyondLastTier)
  {
    assert forall i :: 0 <= i < |Tiers| - 1 ==> Tiers[i].1 >= Tiers[i + 1].1;
  }

  /** Shots from distance 5 and 25 without an explicit value. */
  lemma EstimateExamples()
    ensures EstimateXg(XgFields(None, Some(5.0))) == 0.20
    ensures EstimateXg(XgFields(None, Some(25.0))) == 0.08
    ensures EstimateXg(XgFields(None, None)) == 0.0
    ensures EstimateXg(XgFields(Some(0.31), Some(5.0))) == 0.31
  {
  }
}
