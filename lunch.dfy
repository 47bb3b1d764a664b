/**
  The lunch rule: a shift longer than six hours has one unpaid hour of lunch.
  Hours are exact reals (minutes / 60), so the six-hour boundary is exact.
 */
module Lunch {

  /** `lunchDeduction(rawHours)`: one hour for a shift of more than six hours, nothing otherwise. */
  function LunchDeduction(rawHours: real): (lunch: real)
    ensures lunch == 0.0 || lunch == 1.0
    ensures lunch == 1.0 <==> rawHours > 6.0
  {
    if rawHours > 6.0 then 1.0 else 0.0
  }

  /**
    `effectiveHours(rawHours)`: the raw hours less the lunch hour, never
    negative; for a real shift, effective hours and lunch add up to the raw
    hours.
   */
  function EffectiveHours(rawHours: real): (hours: real)
    ensures 0.0 <= hours
    ensures 0.0 <= rawHours ==> hours <= rawHours
    ensures 0.0 <= rawHours ==> hours + LunchDeduction(rawHours) == rawHours
  {
    var lunch := LunchDeduction(rawHours);
    if rawHours - lunch > 0.0 then rawHours - lunch else 0.0
  }

  /** Up to six hours everything counts; above six the shift loses exactly one hour and keeps more than five. */
  lemma EffectiveHoursPieces(rawHours: real)
    requires 0.0 <= rawHours
    ensures rawHours <= 6.0 ==> EffectiveHours(rawHours) == rawHours
    ensures rawHours > 6.0 ==> EffectiveHours(rawHours) == rawHours - 1.0 > 5.0
  {
  }

  /**
    Exactly six hours has no lunch, and the rule is not monotone: a shift just
    over six hours counts for less than a six-hour shift.
   */
  lemma LunchBoundary()
    ensures LunchDeduction(6.0) == 0.0 && EffectiveHours(6.0) == 6.0
    ensures LunchDeduction(6.5) == 1.0 && EffectiveHours(6.5) == 5.5
    ensures EffectiveHours(6.5) < EffectiveHours(6.0)
  {
  }
}
