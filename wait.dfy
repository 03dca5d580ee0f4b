/** test_conditions (src/Test.py:130-157): the wait of one step. The clock
    and the device are polled together; each poll is a sample holding the
    seconds elapsed since the step started and the current reading of the
    watched point. */
module Wait {
  import opened Values

  /** One row of the condition table: the time budget in seconds, the wake
      flag (the clause is active when it is 1), the watched point and the
      threshold its scaled value must reach. */
  datatype Condition = Condition(clkTime: real, orFlag: real, variable: string, threshold: real)

  /** One poll: seconds since the step started, and the watched point's
      reading at that moment. */
  datatype Sample = Sample(elapsed: real, reading: Value)

  /** How the wait ended: woken at a sample, timed out at the first sample
      past the budget, or still waiting when the samples ran out. */
  datatype WaitOutcome = Woke(at: nat) | TimedOut(at: nat) | Exhausted

  /** Whether the wake clause is on. */
  predicate WakeClause(c: Condition) { c.orFlag == 1.0 }

  /** The wake test on one reading: the reading, divided by 100 on a
      percent point, must be at least the threshold. A point with no units
      entry raises, and so does a token, which cannot be divided or ordered
      against a number. */
  function WakeCheck(t: Tables, c: Condition, reading: Value): (r: Result<bool>)
    ensures r.Err? <==> c.variable !in t.units || reading.Tok?
    ensures r.Ok? ==> (r.value <==> Scaled(t, c.variable, reading.x) >= c.threshold)
    ensures r.Err? ==> r.error == MissingKey(c.variable) || r.error == Incomparable(c.variable)
  {
    if c.variable !in t.units then Err(MissingKey(c.variable))
    else match reading
      case Tok(_) => Err(Incomparable(c.variable))
      case Num(x) => Ok(Scaled(t, c.variable, x) >= c.threshold)
  }

  /** The wait from sample k on. */
  function WaitFrom(t: Tables, c: Condition, samples: seq<Sample>, k: nat): (r: Result<WaitOutcome>)
    requires k <= |samples|
    ensures r.Ok? && r.value.Woke? ==> k <= r.value.at < |samples|
    ensures r.Ok? && r.value.TimedOut? ==> k <= r.value.at < |samples|
    ensures r.Err? ==> r.error == MissingKey(c.variable) || r.error == Incomparable(c.variable)
    decreases |samples| - k
  {
    if k == |samples| then Ok(Exhausted)
    else if samples[k].elapsed > c.clkTime then Ok(TimedOut(k))
    else if WakeClause(c) then
      match WakeCheck(t, c, samples[k].reading)
      case Err(x) => Err(x)
      case Ok(true) => Ok(Woke(k))
      case Ok(false) => WaitFrom(t, c, samples, k + 1)
    else WaitFrom(t, c, samples, k + 1)
  }

  /** The wait of a step, from its first poll. */
  function WaitSpec(t: Tables, c: Condition, samples: seq<Sample>): (r: Result<WaitOutcome>)
    ensures r.Ok? && (r.value.Woke? || r.value.TimedOut?) ==> r.value.at < |samples|
    ensures samples == [] ==> r == Ok(Exhausted)
    ensures samples != [] && samples[0].elapsed > c.clkTime ==> r == Ok(TimedOut(0))
  {
    WaitFrom(t, c, samples, 0)
  }

  /** Whether sample j is inside the budget and, with the clause on, its
      reading does not wake the wait. */
  predicate KeepsWaiting(t: Tables, c: Condition, s: Sample) {
    s.elapsed <= c.clkTime && (WakeClause(c) ==> WakeCheck(t, c, s.reading) == Ok(false))
  }

  /** The wait wakes at sample k exactly when the clause is on, k is within
      the budget and its reading reaches the threshold, and every sample
      before k kept waiting. */
  lemma {:induction false} WokeIff(t: Tables, c: Condition, samples: seq<Sample>, k: nat, at: nat)
    requires k <= at < |samples|
    ensures WaitFrom(t, c, samples, k) == Ok(Woke(at)) <==>
      WakeClause(c) && samples[at].elapsed <= c.clkTime && WakeCheck(t, c, samples[at].reading) == Ok(true) &&
      forall j :: k <= j < at ==> KeepsWaiting(t, c, samples[j])
    decreases at - k
  {
    if k < at {
      WokeIff(t, c, samples, k + 1, at);
    }
  }

  /** The wait times out at sample k exactly when k is the first sample past
      the budget and no sample before it woke the wait. */
  lemma {:induction false} TimedOutIff(t: Tables, c: Condition, samples: seq<Sample>, k: nat, at: nat)
    requires k <= at < |samples|
    ensures WaitFrom(t, c, samples, k) == Ok(TimedOut(at)) <==>
      samples[at].elapsed > c.clkTime && forall j :: k <= j < at ==> KeepsWaiting(t, c, samples[j])
    decreases at - k
  {
    if k < at {
      TimedOutIff(t, c, samples, k + 1, at);
    }
  }

  /** Without the wake clause the wait never ends early and never raises:
      it times out at the first sample past the budget. */
  lemma {:induction false} NoClauseRunsFullBudget(t: Tables, c: Condition, samples: seq<Sample>, k: nat)
    requires !WakeClause(c) && k <= |samples|
    ensures WaitFrom(t, c, samples, k).Ok? && !WaitFrom(t, c, samples, k).value.Woke?
    ensures WaitFrom(t, c, samples, k).value.TimedOut? ==>
      forall j :: k <= j < WaitFrom(t, c, samples, k).value.at ==> samples[j].elapsed <= c.clkTime
    decreases |samples| - k
  {
    if k < |samples| && samples[k].elapsed <= c.clkTime {
      NoClauseRunsFullBudget(t, c, samples, k + 1);
    }
  }

  /** Whether the elapsed times never go backwards. */
  predicate Monotone(samples: seq<Sample>) {
    forall i, j :: 0 <= i <= j < |samples| ==> samples[i].elapsed <= samples[j].elapsed
  }

  /** On a clock that never goes backwards, a timed-out wait polled every
      sample within the budget: the samples within the budget are exactly
      those before the time-out. */
  lemma TimedOutSplitsBudget(t: Tables, c: Condition, samples: seq<Sample>, at: nat)
    requires Monotone(samples) && at < |samples|
    requires WaitSpec(t, c, samples) == Ok(TimedOut(at))
    ensures forall j :: 0 <= j < |samples| ==> (samples[j].elapsed <= c.clkTime <==> j < at)
  {
    TimedOutIff(t, c, samples, 0, at);
  }

  /** A 30 second budget with the clause off, polled at 0, 10, 20, 30 and 40
      seconds, times out at the fifth poll even though the reading is high. */
  lemma ThirtySeconds(t: Tables, point: string)
    ensures var c := Condition(30.0, 0.0, point, 0.0);
      var s := [Sample(0.0, Num(99.0)), Sample(10.0, Num(99.0)), Sample(20.0, Num(99.0)),
                Sample(30.0, Num(99.0)), Sample(40.0, Num(99.0))];
      WaitSpec(t, c, s) == Ok(TimedOut(4))
  {
  }

  /** With the clause on a percent point, a raw reading of 40 is 0.40 and
      wakes a threshold of 0.4 at once. */
  lemma WakesOnPercent(t: Tables, point: string)
    requires IsPercent(t, point)
    ensures WaitSpec(t, Condition(600.0, 1.0, point, 0.4), [Sample(0.0, Num(40.0))]) == Ok(Woke(0))
  {
  }
}
