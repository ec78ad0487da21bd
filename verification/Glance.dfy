/** The part of the daemon's answer the menu bar reads (apps/menubar/status.go), figures as reals. */
module Glance {
  datatype Window = Window(name: string, vendorLabel: string, used: real, stale: bool)

  datatype Report = Report(provider: string, windows: seq<Window>, spendLimit: real, spendPct: real)

  /** A readable answer: the plans, or the daemon saying it has none. */
  datatype GlanceView = GlanceView(reports: seq<Report>, failed: bool)

  function Min(a: real, b: real): real { if a <= b then a else b }

  function Max(a: real, b: real): real { if a >= b then a else b }

  /** A hundred less what is used, kept between nought and a hundred. */
  function Left(used: real): real { Max(0.0, Min(100.0, 100.0 - used)) }

  /** Falling thresholds, compared with what is left. */
  const ALERT_STEPS: seq<real> := [20.0, 5.0, 0.0]

  /** `stepOf`: the number of thresholds that what is left does not exceed. */
  function StepOf(used: real): (n: nat)
    ensures n <= 3
  {
    (if Left(used) <= 20.0 then 1 else 0) + (if Left(used) <= 5.0 then 1 else 0) + (if Left(used) <= 0.0 then 1 else 0)
  }

  method CountSteps(used: real) returns (n: nat)
    ensures n == StepOf(used)
  {
    n := 0;
    for i := 0 to |ALERT_STEPS|
      invariant i == 0 ==> n == 0
      invariant i == 1 ==> n == if Left(used) <= 20.0 then 1 else 0
      invariant i == 2 ==> n == (if Left(used) <= 20.0 then 1 else 0) + (if Left(used) <= 5.0 then 1 else 0)
      invariant i == 3 ==> n == StepOf(used)
    {
      if Left(used) <= ALERT_STEPS[i] {
        n := n + 1;
      }
    }
  }

  /** The steps in shares used: at eighty, at ninety-five and at a hundred, each of these included. */
  lemma StepOfExactly(used: real)
    ensures (StepOf(used) >= 1 <==> used >= 80.0) && (StepOf(used) >= 2 <==> used >= 95.0) && (StepOf(used) == 3 <==> used >= 100.0)
  {
  }

  /** More used is never fewer steps. */
  lemma StepsRise(a: real, b: real)
    requires a <= b
    ensures StepOf(a) <= StepOf(b)
  {
  }
}
