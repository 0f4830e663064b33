/** The SOAP time/price service `TimePriceService.get_time_price`. The copies in api/app_soap.py and
    api/soap/app.py compute in hours; services/service_soap.py is an older variant in minutes. */
module TimePrice {
  import opened Wrappers
  import Charges

  /** Assumed average driving speed, km/h. */
  const AverageSpeed: real := 90.0

  /** Flat price per unit of time. */
  const PriceRate: real := 2.0

  /** Total hours: driving at 90 km/h plus `distance / autonomy` recharges of `rechargeTime / 60` hours each. */
  function TotalHours(distance: real, autonomy: real, rechargeTime: real): real
    requires autonomy != 0.0
  {
    var recharges := distance / autonomy;
    var rechargeHours := recharges * (rechargeTime / 60.0);
    var drivingHours := distance / AverageSpeed;
    drivingHours + rechargeHours
  }

  /** The hours-based service. Each argument is `None` when the SOAP request left it out, where `float(None)`
      raises; a zero autonomy makes the division raise. Every such exception answers `['0', '0']`.
      Otherwise the answer is `[total hours, price]`, in that order. */
  function GetTimePrice(distance: Option<real>, autonomy: Option<real>, rechargeTime: Option<real>): (reply: seq<real>)
    ensures |reply| == 2
    ensures reply[1] == PriceRate * reply[0]
    ensures (distance.None? || autonomy.None? || rechargeTime.None?) ==> reply == [0.0, 0.0]
    ensures autonomy == Some(0.0) ==> reply == [0.0, 0.0]
    ensures distance.Some? && autonomy.Some? && rechargeTime.Some? && autonomy.value != 0.0 ==>
              reply[0] == distance.value / AverageSpeed + (distance.value / autonomy.value) * (rechargeTime.value / 60.0)
  {
    if distance.None? || autonomy.None? || rechargeTime.None? || autonomy.value == 0.0 then
      [0.0, 0.0]
    else
      var total := TotalHours(distance.value, autonomy.value, rechargeTime.value);
      [total, total * PriceRate]
  }

  /** For a fixed vehicle the hours are proportional to the distance, at a positive rate
      (when the autonomy is positive and the recharge time non-negative). */
  lemma HoursProportionalToDistance(distance: real, autonomy: real, rechargeTime: real)
    requires autonomy > 0.0 && rechargeTime >= 0.0
    ensures var rate := 1.0 / AverageSpeed + rechargeTime / (60.0 * autonomy);
            rate > 0.0 && TotalHours(distance, autonomy, rechargeTime) == distance * rate
  {
    var ratio := rechargeTime / (60.0 * autonomy);
    assert ratio >= 0.0;
    assert (distance / autonomy) * (rechargeTime / 60.0) == distance * ratio;
  }

  /** A longer trip takes strictly longer and costs strictly more. */
  lemma StrictlyIncreasingInDistance(d1: real, d2: real, autonomy: real, rechargeTime: real)
    requires d1 < d2 && autonomy > 0.0 && rechargeTime >= 0.0
    ensures var r1 := GetTimePrice(Some(d1), Some(autonomy), Some(rechargeTime));
            var r2 := GetTimePrice(Some(d2), Some(autonomy), Some(rechargeTime));
            r1[0] < r2[0] && r1[1] < r2[1]
  {
    HoursProportionalToDistance(d1, autonomy, rechargeTime);
    HoursProportionalToDistance(d2, autonomy, rechargeTime);
    var rate := 1.0 / AverageSpeed + rechargeTime / (60.0 * autonomy);
    Charges.MultiplyStrict(d1, d2, rate);
  }

  /** A zero distance, with a non-zero autonomy, is free and instant. */
  lemma ZeroDistanceIsFree(autonomy: real, rechargeTime: real)
    requires autonomy != 0.0
    ensures GetTimePrice(Some(0.0), Some(autonomy), Some(rechargeTime)) == [0.0, 0.0]
  {
  }

  /** The older service in services/service_soap.py: integer arguments, true division, time in minutes
      (`distance / autonomy * 60 + rechargeTime`), price twice the MINUTES, and the answer `[minutes / 60, price]`.
      Each argument is `None` when the SOAP request left it out; the service has no exception handler, so a
      missing argument (`None` in the arithmetic raises) and a zero autonomy are both a fault (`None`).
      The two-decimal text formatting is not modelled. */
  function LegacyGetTimePrice(distance: Option<int>, autonomy: Option<int>, rechargeTime: Option<int>): (reply: Option<seq<real>>)
    ensures reply.None? <==> (distance.None? || autonomy.None? || rechargeTime.None? || autonomy.value == 0)
    ensures reply.Some? ==>
              var d, a, r := distance.value as real, autonomy.value as real, rechargeTime.value as real;
              reply.value == [d / a + r / 60.0, PriceRate * (d / a * 60.0 + r)]
  {
    if distance.None? || autonomy.None? || rechargeTime.None? || autonomy.value == 0 then None
    else
      var minutes := distance.value as real / autonomy.value as real * 60.0 + rechargeTime.value as real;
      var price := minutes * PriceRate;
      Some([minutes / 60.0, price])
  }

  /** The older service charges the flat rate per minute, not per hour: its price is 120 times its hours. */
  lemma LegacyPricesMinutes(distance: int, autonomy: int, rechargeTime: int)
    requires autonomy != 0
    ensures var reply := LegacyGetTimePrice(Some(distance), Some(autonomy), Some(rechargeTime)).value;
            reply[1] == 60.0 * PriceRate * reply[0]
  {
  }

  /** For a zero distance the older service answers the recharge time in hours, and twice it as price. */
  lemma LegacyZeroDistance(autonomy: int, rechargeTime: int)
    requires autonomy != 0
    ensures LegacyGetTimePrice(Some(0), Some(autonomy), Some(rechargeTime)) == Some([rechargeTime as real / 60.0, 2.0 * rechargeTime as real])
  {
  }

  /** One trip on which the two services agree on the time and disagree on the price: 90 km, 90 km of
      autonomy, 60 for the recharge figure take 2 hours in both, priced 4 by one and 240 by the other. */
  lemma ServicesDisagreeOnPrice()
    ensures GetTimePrice(Some(90.0), Some(90.0), Some(60.0)) == [2.0, 4.0]
    ensures LegacyGetTimePrice(Some(90), Some(90), Some(60)) == Some([2.0, 240.0])
  {
  }
}
