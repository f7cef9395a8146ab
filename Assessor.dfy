/** The assessment of a counted mask: the percentage of counted pixels,
    the reported (rounded) percentage and the Safe/Warning/Danger label. */
module Assessor {

  datatype SafetyLevel = Safe | Warning | Danger

  /** Percentages strictly above these raise the label. */
  const WarningPercent: real := 2.0
  const DangerPercent: real := 6.0

  /** `count` out of `total` pixels, as a percentage. */
  function Percent(count: nat, total: nat): (p: real)
    requires 0 < total
    ensures p * total as real == 100.0 * count as real
    ensures count <= total ==> 0.0 <= p <= 100.0
    ensures p == 0.0 <==> count == 0
  {
    var share := count as real / total as real;
    assert share * total as real == count as real;
    assert count <= total ==> share <= 1.0;
    share * 100.0
  }

  /** The label: Danger above 6 %, Warning above 2 % up to 6 %, Safe otherwise. */
  function Status(percent: real): (s: SafetyLevel)
    ensures s == Danger <==> percent > DangerPercent
    ensures s == Warning <==> WarningPercent < percent <= DangerPercent
    ensures s == Safe <==> percent <= WarningPercent
  {
    if percent > DangerPercent then Danger
    else if percent > WarningPercent then Warning
    else Safe
  }

  /** The order of the labels by severity. */
  function Severity(s: SafetyLevel): nat
  {
    match s
    case Safe => 0
    case Warning => 1
    case Danger => 2
  }

  /** A higher percentage never gives a milder label. */
  lemma StatusMonotone(p: real, q: real)
    requires p <= q
    ensures Severity(Status(p)) <= Severity(Status(q))
  {
  }

  /** The cut-offs are strict: exactly 2 % is still Safe and exactly 6 % still Warning. */
  lemma StatusBoundaries()
    ensures Status(2.0) == Safe && Status(2.01) == Warning
    ensures Status(6.0) == Warning && Status(6.01) == Danger
  {
  }

  /** The label as a condition on whole numbers: Danger exactly when more
      than 6 pixels in 100 are counted, Warning when more than 2 in 100 but
      no more than 6 in 100. */
  lemma StatusOfCount(count: nat, total: nat)
    requires 0 < total
    ensures Status(Percent(count, total)) == Danger <==> 100 * count > 6 * total
    ensures Status(Percent(count, total)) == Warning <==> 2 * total < 100 * count <= 6 * total
    ensures Status(Percent(count, total)) == Safe <==> 100 * count <= 2 * total
  {
    var p := Percent(count, total);
    PercentAbove(p, total, 100 * count, 6);
    PercentAbove(p, total, 100 * count, 2);
  }

  /** For `p` with `p * total == scaled`, comparing `p` with a whole number
      `c` is comparing `scaled` with `c * total`. */
  lemma PercentAbove(p: real, total: nat, scaled: int, c: int)
    requires 0 < total && p * total as real == scaled as real
    ensures p > c as real <==> scaled > c * total
  {
    var t := total as real;
    assert (c * total) as real == c as real * t;
    if p > c as real {
      assert p * t - c as real * t == (p - c as real) * t;
    } else {
      assert c as real * t - p * t == (c as real - p) * t;
    }
  }

  /** The nearest integer, ties going to the even one. */
  function RoundHalfEven(x: real): (n: int)
    ensures n as real - 0.5 <= x <= n as real + 0.5
    ensures x == x.Floor as real ==> n == x.Floor
    ensures x - x.Floor as real == 0.5 ==> n % 2 == 0
  {
    var f := x.Floor;
    var frac := x - f as real;
    if frac < 0.5 then f
    else if frac > 0.5 then f + 1
    else if f % 2 == 0 then f
    else f + 1
  }

  /** The reported percentage: rounded to two decimals. */
  function Round2(p: real): (r: real)
    ensures -0.005 <= r - p <= 0.005
    ensures 0.0 <= p <= 100.0 ==> 0.0 <= r <= 100.0
    ensures p == 0.0 ==> r == 0.0
  {
    RoundHalfEven(p * 100.0) as real / 100.0
  }

  /** The label is taken from the unrounded percentage, so the reported
      figure can read 2.00 while the label is Warning (501 of 25000 pixels). */
  lemma RoundedPercentageCanHideLabel()
    ensures Percent(501, 25000) == 2.004
    ensures Round2(Percent(501, 25000)) == 2.0
    ensures Status(Percent(501, 25000)) == Warning && Status(Round2(Percent(501, 25000))) == Safe
  {
    assert (200.4).Floor == 200;
  }

  /** What the assessment reports for a mask. */
  datatype Report = Report(bacteriaCount: nat, percentage: real, safetyLevel: SafetyLevel)

  /** The report for `count` counted pixels out of `total`: the percentage
      is rounded for display, the label comes from the exact share. */
  function Assess(count: nat, total: nat): (r: Report)
    requires 0 < total && count <= total
    ensures r.bacteriaCount == count
    ensures 0.0 <= r.percentage <= 100.0
    ensures -0.005 <= r.percentage - Percent(count, total) <= 0.005
    ensures r.safetyLevel == Danger <==> 100 * count > 6 * total
    ensures r.safetyLevel == Warning <==> 2 * total < 100 * count <= 6 * total
    ensures r.safetyLevel == Safe <==> 100 * count <= 2 * total
  {
    var percent := Percent(count, total);
    StatusOfCount(count, total);
    Report(count, Round2(percent), Status(percent))
  }

  /** Nothing counted reads as 0 % and Safe. */
  lemma AssessNothing(total: nat)
    requires 0 < total
    ensures Assess(0, total) == Report(0, 0.0, Safe)
  {
  }
}
