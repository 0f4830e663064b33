/** Charge-Count Planner: how many charging stops a route needs. */
module Charges {

  /** Share of the rated autonomy used between two charges (the source's default argument). */
  const SafetyMargin: real := 0.8

  /** Cap on the number of charges in the three copies of the planner under api/. */
  const MaxCharges: nat := 10

  /** The copies of the planner differ in one point: app.py returns the ceiling as it is, the
      copies under api/ clamp it with `min(required_charges, max_charges)`. */
  datatype ChargePolicy = Uncapped | CappedAt(maxCharges: nat)

  /** Python's `math.ceil` on a real: the least integer not below `x`. */
  function Ceil(x: real): (c: int)
    ensures c as real - 1.0 < x <= c as real
  {
    -((-x).Floor)
  }

  /** The number of charges for `totalDistance` km: 0 when the autonomy is not positive, otherwise
      the ceiling of the distance over the usable range `autonomy * safetyMargin`, clamped by the policy. */
  function RequiredCharges(totalDistance: real, autonomy: real, safetyMargin: real, policy: ChargePolicy): (k: int)
    requires safetyMargin > 0.0
    ensures autonomy <= 0.0 ==> k == 0
    ensures totalDistance >= 0.0 ==> k >= 0
    ensures policy.CappedAt? ==> k <= policy.maxCharges
  {
    if autonomy <= 0.0 then 0
    else
      var required := Ceil(totalDistance / (autonomy * safetyMargin));
      match policy
      case Uncapped => required
      case CappedAt(maxCharges) => if required < maxCharges then required else maxCharges
  }

  /** The clamped count is the uncapped count cut at the cap. */
  lemma CappedIsMinOfUncapped(totalDistance: real, autonomy: real, safetyMargin: real, maxCharges: nat)
    requires safetyMargin > 0.0
    ensures var u := RequiredCharges(totalDistance, autonomy, safetyMargin, Uncapped);
            RequiredCharges(totalDistance, autonomy, safetyMargin, CappedAt(maxCharges)) == if u < maxCharges then u else maxCharges
  {
  }

  /** Without a cap, `k` legs of usable range cover the distance and `k - 1` do not:
      `k` is the least number of full-range legs the trip needs. */
  lemma ChargesCoverDistance(totalDistance: real, autonomy: real, safetyMargin: real)
    requires safetyMargin > 0.0 && autonomy > 0.0
    ensures var k := RequiredCharges(totalDistance, autonomy, safetyMargin, Uncapped);
            var usable := autonomy * safetyMargin;
            (k as real - 1.0) * usable < totalDistance <= k as real * usable
  {
    var usable := autonomy * safetyMargin;
    PositiveProduct(autonomy, safetyMargin);
    CeilCovers(totalDistance, usable);
  }

  /** `Ceil(t / u)` legs of length `u` cover `t`, one fewer does not. */
  lemma CeilCovers(t: real, u: real)
    requires u > 0.0
    ensures (Ceil(t / u) as real - 1.0) * u < t
    ensures t <= Ceil(t / u) as real * u
  {
    var q := t / u;
    assert q * u == t;
    var below := Ceil(q) as real - 1.0;
    MultiplyStrict(below, q, u);
    assert below * u < t;
    MultiplyMonotone(q, Ceil(q) as real, u);
  }

  lemma PositiveProduct(x: real, y: real)
    requires x > 0.0 && y > 0.0
    ensures x * y > 0.0
  {
    MultiplyStrict(0.0, x, y);
  }

  lemma MultiplyStrict(x: real, y: real, c: real)
    requires x < y && c > 0.0
    ensures x * c < y * c
  {
    assert y * c - x * c == (y - x) * c;
  }

  lemma MultiplyMonotone(x: real, y: real, c: real)
    requires x <= y && c >= 0.0
    ensures x * c <= y * c
  {
    assert y * c - x * c == (y - x) * c;
  }

  lemma CeilMonotone(x: real, y: real)
    requires x <= y
    ensures Ceil(x) <= Ceil(y)
  {
  }

  /** A longer trip never needs fewer charges. */
  lemma MonotoneInDistance(d1: real, d2: real, autonomy: real, safetyMargin: real, policy: ChargePolicy)
    requires safetyMargin > 0.0 && d1 <= d2
    ensures RequiredCharges(d1, autonomy, safetyMargin, policy) <= RequiredCharges(d2, autonomy, safetyMargin, policy)
  {
    if autonomy > 0.0 {
      var usable := autonomy * safetyMargin;
      assert d1 / usable <= d2 / usable by {
        MultiplyMonotone(d1, d2, 1.0 / usable);
      }
      CeilMonotone(d1 / usable, d2 / usable);
    }
  }

  /** A vehicle with more autonomy never needs more charges for the same (non-negative) distance. */
  lemma AntitoneInAutonomy(totalDistance: real, a1: real, a2: real, safetyMargin: real, policy: ChargePolicy)
    requires safetyMargin > 0.0 && totalDistance >= 0.0 && 0.0 < a1 <= a2
    ensures RequiredCharges(totalDistance, a2, safetyMargin, policy) <= RequiredCharges(totalDistance, a1, safetyMargin, policy)
  {
    var u1 := a1 * safetyMargin;
    var u2 := a2 * safetyMargin;
    MultiplyMonotone(a1, a2, safetyMargin);
    assert 0.0 < u1 <= u2;
    var q1 := totalDistance / u1;
    var q2 := totalDistance / u2;
    assert q2 * u2 == totalDistance == q1 * u1;
    assert q2 >= 0.0;
    MultiplyMonotone(u1, u2, q2);
    assert q2 * u1 <= q1 * u1;
    if q2 > q1 {
      MultiplyStrict(q1, q2, u1);
      assert false;
    }
    CeilMonotone(q2, q1);
  }

  /** With a positive autonomy, a positive distance needs at least one charge (whenever the cap allows
      one), and a zero distance needs none: the count is zero exactly when the distance is. */
  lemma ZeroChargesIffZeroDistance(totalDistance: real, autonomy: real, safetyMargin: real, policy: ChargePolicy)
    requires safetyMargin > 0.0 && autonomy > 0.0 && totalDistance >= 0.0
    requires policy.CappedAt? ==> policy.maxCharges >= 1
    ensures RequiredCharges(totalDistance, autonomy, safetyMargin, policy) == 0 <==> totalDistance == 0.0
  {
    var usable := autonomy * safetyMargin;
    assert usable > 0.0;
    var q := totalDistance / usable;
    assert q * usable == totalDistance;
    if totalDistance > 0.0 {
      if q <= 0.0 {
        MultiplyMonotone(q, 0.0, usable);
        assert false;
      }
      assert Ceil(q) >= 1;
    } else {
      assert q == 0.0;
    }
  }

  /** Example: 300 km with 150 km of autonomy and the 0.8 margin needs 3 charges. */
  lemma ExampleThreeHundredKm()
    ensures RequiredCharges(300.0, 150.0, SafetyMargin, CappedAt(MaxCharges)) == 3
  {
    assert 300.0 / (150.0 * SafetyMargin) == 2.5;
  }

  /** Without the cap the count is unbounded: 1300 km at 100 km of autonomy needs 17 charges
      uncapped, which the capped copies cut to 10. */
  lemma ExampleCapBites()
    ensures RequiredCharges(1300.0, 100.0, SafetyMargin, Uncapped) == 17
    ensures RequiredCharges(1300.0, 100.0, SafetyMargin, CappedAt(MaxCharges)) == 10
  {
    assert 1300.0 / (100.0 * SafetyMargin) == 16.25;
  }
}
