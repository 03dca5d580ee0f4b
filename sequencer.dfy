/** start_test (src/Test.py:74-104): the steps of the script in order. Row
    0 of each table is the acceptable-bounds row and is never run; rows 1 to n-1 are
    the steps. Each step writes its inputs, waits, reads the outputs back,
    records them and, from the second step on, asserts them; the first
    failure ends the run. */
module Sequencer {
  import opened Values
  import opened Expression
  import opened Inputs
  import opened Wait
  import opened Assertion

  /** One row of the script: input cells, wait condition and expected
      output cells, each keyed by point name in column order. */
  datatype Step = Step(inputs: seq<(string, Cell)>, cond: Condition, expected: seq<(string, Cell)>)

  /** The rows of the script and the tolerance of every output column. */
  datatype Script = Script(steps: seq<Step>, bounds: map<string, real>)

  /** What the world supplies for one step: the polls of its wait, and the
      output values the controller shows when the wait is over. */
  datatype StepEnv = StepEnv(samples: seq<Sample>, observed: map<string, Value>)

  /** How a run ended: every step passed, the assertion of a step failed,
      a step raised, or the supplied world ran out during a step. */
  datatype RunOutcome = Passed | Failed(step: nat) | Aborted(step: nat, error: Error) | Stalled(step: nat)

  /** The runner's state when the run ends. currentStep 0 stands for the
      source's None: no step started. */
  datatype Run = Run(device: map<string, Value>, stepOutputs: map<int, map<string, Value>>,
                     currentStep: nat, outcome: RunOutcome)

  /** The point names of an ordered row. */
  function Names(cells: seq<(string, Cell)>): (ns: seq<string>)
    ensures |ns| == |cells| && forall i :: 0 <= i < |cells| ==> ns[i] == cells[i].0
  {
    if cells == [] then [] else [cells[0].0] + Names(cells[1..])
  }

  /** get_current_variable_values: the current value of every named point,
      read in order onto the values read so far; a point the device does
      not have raises. */
  function CaptureFrom(dev: map<string, Value>, names: seq<string>, k: nat, acc: map<string, Value>): (r: Result<map<string, Value>>)
    requires k <= |names|
    requires forall x :: x in acc ==> x in dev && acc[x] == dev[x]
    ensures r.Ok? <==> forall m :: k <= m < |names| ==> names[m] in dev
    ensures r.Ok? ==> forall x :: x in r.value <==> x in acc || x in names[k..]
    ensures r.Ok? ==> forall x :: x in r.value ==> x in dev && r.value[x] == dev[x]
    ensures r.Err? ==> r.error.UnknownPoint? && r.error.name in names[k..] && r.error.name !in dev
    decreases |names| - k
  {
    if k == |names| then Ok(acc)
    else if names[k] !in dev then Err(UnknownPoint(names[k]))
    else
      assert names[k..] == [names[k]] + names[k + 1..];
      CaptureFrom(dev, names, k + 1, acc[names[k] := dev[names[k]]])
  }

  /** The values the named points have on the device: exactly those points,
      each with its device value, or the error of a point the device lacks. */
  function Capture(dev: map<string, Value>, names: seq<string>): (r: Result<map<string, Value>>)
    ensures r.Ok? <==> forall m :: 0 <= m < |names| ==> names[m] in dev
    ensures r.Ok? ==> forall x :: x in r.value <==> x in names
    ensures r.Ok? ==> forall x :: x in r.value ==> r.value[x] == dev[x]
    ensures r.Err? ==> r.error.UnknownPoint? && r.error.name in names && r.error.name !in dev
  {
    assert names[0..] == names;
    CaptureFrom(dev, names, 0, map[])
  }

  /** Where one step leaves the run: on to the next step with this device
      and record, or stopped with this final state. */
  datatype StepEnd = Next(device: map<string, Value>, stepOutputs: map<int, map<string, Value>>) | Halt(run: Run)

  /** One pass of the loop body for step i. */
  function RunStep(t: Tables, script: Script, envs: seq<StepEnv>, i: nat,
                   dev: map<string, Value>, outs: map<int, map<string, Value>>): (r: StepEnd)
    requires 1 <= i < |script.steps|
    ensures r.Next? ==> forall j :: j in r.stepOutputs <==> j in outs || j == i
    ensures r.Next? ==> forall j :: j in outs && j != i ==> r.stepOutputs[j] == outs[j]
    ensures r.Halt? ==> r.run.currentStep == i && !r.run.outcome.Passed? && r.run.outcome.step == i
    ensures r.Halt? && r.run.outcome.Failed? ==> i > 1 && forall j :: j in r.run.stepOutputs <==> j in outs || j == i
    ensures r.Halt? ==> forall j :: j in r.run.stepOutputs ==> j in outs || j == i
    ensures r.Halt? && r.run.outcome.Aborted? && r.run.outcome.error.MissingStep? ==> i > 1 && i - 1 !in outs
  {
    var step := script.steps[i];
    var applied := SetValuesSpec(t, dev, step.inputs);
    if applied.error.Some? then Halt(Run(applied.device, outs, i, Aborted(i, applied.error.value)))
    else if i >= |envs| then Halt(Run(applied.device, outs, i, Stalled(i)))
    else match WaitSpec(t, step.cond, envs[i].samples)
      case Err(x) => Halt(Run(applied.device, outs, i, Aborted(i, x)))
      case Ok(Exhausted) => Halt(Run(applied.device, outs, i, Stalled(i)))
      case Ok(_) =>
        var seen := applied.device + envs[i].observed;
        match Capture(seen, Names(step.expected))
        case Err(x) => Halt(Run(seen, outs, i, Aborted(i, x)))
        case Ok(actual) =>
          var recorded := outs[i := actual];
          if i > 1 then
            match AssertOutput(t, seen, recorded, i, step.expected, actual, script.bounds)
            case Err(x) => Halt(Run(seen, recorded, i, Aborted(i, x)))
            case Ok(false) => Halt(Run(seen, recorded, i, Failed(i)))
            case Ok(true) => Next(seen, recorded)
          else Next(seen, recorded)
  }

  /** What a step records is what it read: the values of its output
      columns on the device as the wait left it, which is the device the
      run goes on with. */
  lemma RunStepRecords(t: Tables, script: Script, envs: seq<StepEnv>, i: nat,
                       dev: map<string, Value>, outs: map<int, map<string, Value>>)
    requires 1 <= i < |script.steps|
    ensures var r := RunStep(t, script, envs, i, dev, outs);
      r.Next? ==> Capture(r.device, Names(script.steps[i].expected)) == Ok(r.stepOutputs[i])
  {
    var step := script.steps[i];
    var applied := SetValuesSpec(t, dev, step.inputs);
    if applied.error.None? && i < |envs| {
      var w := WaitSpec(t, step.cond, envs[i].samples);
      if w.Ok? && !w.value.Exhausted? {
        var seen := applied.device + envs[i].observed;
        var c := Capture(seen, Names(step.expected));
        if c.Ok? {
          var r := RunStep(t, script, envs, i, dev, outs);
          assert r.Next? ==> r == Next(seen, outs[i := c.value]);
        }
      }
    }
  }

  /** The same for a step that halts after recording: the record of step
      i is what was read on the device the run halts with. */
  lemma HaltRecords(t: Tables, script: Script, envs: seq<StepEnv>, i: nat,
                    dev: map<string, Value>, outs: map<int, map<string, Value>>)
    requires 1 <= i < |script.steps|
    ensures var r := RunStep(t, script, envs, i, dev, outs);
      r.Halt? && i !in outs && i in r.run.stepOutputs ==>
        Capture(r.run.device, Names(script.steps[i].expected)) == Ok(r.run.stepOutputs[i])
  {
    var step := script.steps[i];
    var applied := SetValuesSpec(t, dev, step.inputs);
    var r := RunStep(t, script, envs, i, dev, outs);
    if applied.error.Some? || i >= |envs| {
      assert r.run.stepOutputs == outs;
    } else {
      var w := WaitSpec(t, step.cond, envs[i].samples);
      if w.Err? || w.value.Exhausted? {
        assert r.run.stepOutputs == outs;
      } else {
        var seen := applied.device + envs[i].observed;
        var c := Capture(seen, Names(step.expected));
        if c.Err? {
          assert r.run.stepOutputs == outs;
        } else {
          assert r.Halt? ==> r.run.device == seen && r.run.stepOutputs == outs[i := c.value];
          assert outs[i := c.value][i] == c.value;
        }
      }
    }
  }

  /** Step 1 is recorded and never asserted: what its expected cells say
      makes no difference, only their names do. */
  lemma FirstStepUnasserted(t: Tables, script: Script, other: Script, envs: seq<StepEnv>,
                            dev: map<string, Value>, outs: map<int, map<string, Value>>)
    requires 1 < |script.steps| && 1 < |other.steps|
    requires other.steps[1].inputs == script.steps[1].inputs && other.steps[1].cond == script.steps[1].cond
    requires Names(other.steps[1].expected) == Names(script.steps[1].expected)
    ensures RunStep(t, other, envs, 1, dev, outs) == RunStep(t, script, envs, 1, dev, outs)
  {
  }

  /** What the assertion of step i says when the step gets that far: its
      inputs are written without error, its wait wakes or times out, and
      its output columns are read and recorded; None when it stops before. */
  function StepVerdict(t: Tables, script: Script, envs: seq<StepEnv>, i: nat,
                       dev: map<string, Value>, outs: map<int, map<string, Value>>): Option<Result<bool>>
    requires 1 <= i < |script.steps|
  {
    var step := script.steps[i];
    var applied := SetValuesSpec(t, dev, step.inputs);
    if applied.error.Some? || i >= |envs| then None
    else
      var w := WaitSpec(t, step.cond, envs[i].samples);
      if w.Err? || w.value.Exhausted? then None
      else
        var seen := applied.device + envs[i].observed;
        var c := Capture(seen, Names(step.expected));
        if c.Err? then None
        else Some(AssertOutput(t, seen, outs[i := c.value], i, step.expected, c.value, script.bounds))
  }

  /** A step that writes, waits and reads without error goes on, with the
      device its writes and the wait left and with its reading recorded,
      exactly when it is step 1 or its assertion holds; it fails exactly
      when it is a later step whose assertion is false, and an assertion
      that raises aborts it. */
  lemma StepOutcome(t: Tables, script: Script, envs: seq<StepEnv>, i: nat,
                    dev: map<string, Value>, outs: map<int, map<string, Value>>, actual: map<string, Value>)
    requires 1 <= i < |script.steps| && i < |envs|
    requires SetValuesSpec(t, dev, script.steps[i].inputs).error.None?
    requires WaitSpec(t, script.steps[i].cond, envs[i].samples).Ok?
    requires !WaitSpec(t, script.steps[i].cond, envs[i].samples).value.Exhausted?
    requires Capture(SetValuesSpec(t, dev, script.steps[i].inputs).device + envs[i].observed,
                     Names(script.steps[i].expected)) == Ok(actual)
    ensures var seen := SetValuesSpec(t, dev, script.steps[i].inputs).device + envs[i].observed;
      var recorded := outs[i := actual];
      var verdict := AssertOutput(t, seen, recorded, i, script.steps[i].expected, actual, script.bounds);
      var r := RunStep(t, script, envs, i, dev, outs);
      (r == Next(seen, recorded) <==> i == 1 || verdict == Ok(true)) &&
      (r == Halt(Run(seen, recorded, i, Failed(i))) <==> i > 1 && verdict == Ok(false)) &&
      (i > 1 && verdict.Err? ==> r == Halt(Run(seen, recorded, i, Aborted(i, verdict.error))))
  {
  }

  /** RunStep against the verdict: a step goes on exactly when it gets to
      its assertion and is step 1 or the assertion holds, and it fails
      exactly when it is a later step whose assertion is false. */
  lemma StepVerdictOutcome(t: Tables, script: Script, envs: seq<StepEnv>, i: nat,
                           dev: map<string, Value>, outs: map<int, map<string, Value>>)
    requires 1 <= i < |script.steps|
    ensures var r := RunStep(t, script, envs, i, dev, outs);
      var v := StepVerdict(t, script, envs, i, dev, outs);
      (r.Next? <==> v.Some? && (i == 1 || v.value == Ok(true))) &&
      (r.Halt? && r.run.outcome.Failed? <==> i > 1 && v == Some(Ok(false)))
  {
    var step := script.steps[i];
    var applied := SetValuesSpec(t, dev, step.inputs);
    if applied.error.None? && i < |envs| {
      var w := WaitSpec(t, step.cond, envs[i].samples);
      if w.Ok? && !w.value.Exhausted? {
        var c := Capture(applied.device + envs[i].observed, Names(step.expected));
        if c.Ok? {
          StepOutcome(t, script, envs, i, dev, outs, c.value);
        }
      }
    }
  }

  /** The device a step leaves is the one its input writes left, with the
      values the controller showed after the wait laid over it. */
  lemma RunStepDevice(t: Tables, script: Script, envs: seq<StepEnv>, i: nat,
                      dev: map<string, Value>, outs: map<int, map<string, Value>>)
    requires 1 <= i < |script.steps|
    ensures var r := RunStep(t, script, envs, i, dev, outs);
      r.Next? ==> i < |envs| && r.device == SetValuesSpec(t, dev, script.steps[i].inputs).device + envs[i].observed
  {
  }

  /** A step that halts leaves the device its input writes left, with the
      values after the wait laid over it when it got past the wait. */
  lemma HaltDevice(t: Tables, script: Script, envs: seq<StepEnv>, i: nat,
                   dev: map<string, Value>, outs: map<int, map<string, Value>>)
    requires 1 <= i < |script.steps|
    ensures var r := RunStep(t, script, envs, i, dev, outs);
      var written := SetValuesSpec(t, dev, script.steps[i].inputs).device;
      r.Halt? ==> r.run.device == written || (i < |envs| && r.run.device == written + envs[i].observed)
  {
  }

  /** The loop from step i on. */
  function RunFrom(t: Tables, script: Script, envs: seq<StepEnv>, i: nat,
                   dev: map<string, Value>, outs: map<int, map<string, Value>>): (r: Run)
    requires i >= 1
    ensures r.outcome.Passed? ==> r.currentStep == if i >= |script.steps| then i - 1 else |script.steps| - 1
    decreases |script.steps| - i
  {
    if i >= |script.steps| then Run(dev, outs, i - 1, Passed)
    else match RunStep(t, script, envs, i, dev, outs)
      case Halt(run) => run
      case Next(d, o) => RunFrom(t, script, envs, i + 1, d, o)
  }

  /** One turn of the loop: a step that halts ends the run with its
      state, and one that goes on hands its state to the next step. */
  lemma RunFromStep(t: Tables, script: Script, envs: seq<StepEnv>, i: nat,
                    dev: map<string, Value>, outs: map<int, map<string, Value>>)
    requires 1 <= i < |script.steps|
    ensures var s := RunStep(t, script, envs, i, dev, outs);
      RunFrom(t, script, envs, i, dev, outs) == if s.Next? then RunFrom(t, script, envs, i + 1, s.device, s.stepOutputs) else s.run
  {
  }

  /** Whether run is the run from step i on, from this device and record.
      The statement is made for every j equal to i, so that the solver
      unfolds the run only where a proof names RunFrom at j. */
  ghost predicate RunsTo(t: Tables, script: Script, envs: seq<StepEnv>, i: nat,
                         dev: map<string, Value>, outs: map<int, map<string, Value>>, run: Run) {
    forall j: nat :: j == i && j >= 1 ==> run == RunFrom(t, script, envs, j, dev, outs)
  }

  /** Past the last step the loop is over and the run has passed. */
  lemma RunsToEnd(t: Tables, script: Script, envs: seq<StepEnv>, i: nat,
                  dev: map<string, Value>, outs: map<int, map<string, Value>>, run: Run)
    requires 1 <= i && |script.steps| <= i && RunsTo(t, script, envs, i, dev, outs, run)
    ensures run == Run(dev, outs, i - 1, Passed)
  {
    assert run == RunFrom(t, script, envs, i, dev, outs);
  }

  /** start_test from a fresh runner: no outputs recorded yet. */
  function RunSpec(t: Tables, script: Script, envs: seq<StepEnv>, dev: map<string, Value>): (r: Run)
    ensures r.outcome.Passed? ==> r.currentStep == if |script.steps| <= 1 then 0 else |script.steps| - 1
    ensures r.outcome.Failed? ==> 2 <= r.outcome.step
  {
    NeverFailsFirstStep(t, script, envs, 1, dev, map[]);
    RunFrom(t, script, envs, 1, dev, map[])
  }

  /** A failed assertion is never that of the first step. */
  lemma {:induction false} NeverFailsFirstStep(t: Tables, script: Script, envs: seq<StepEnv>, i: nat,
                                               dev: map<string, Value>, outs: map<int, map<string, Value>>)
    requires i >= 1
    ensures RunFrom(t, script, envs, i, dev, outs).outcome.Failed? ==>
      2 <= RunFrom(t, script, envs, i, dev, outs).outcome.step
    decreases |script.steps| - i
  {
    if i < |script.steps| {
      var s := RunStep(t, script, envs, i, dev, outs);
      if s.Next? {
        NeverFailsFirstStep(t, script, envs, i + 1, s.device, s.stepOutputs);
      }
    }
  }

  /** Whether a run from step i, on top of the record outs, that does not
      pass ends at a step it ran, with current_step that step and nothing
      recorded for a later step. */
  predicate EndsAt(r: Run, i: nat, outs: map<int, map<string, Value>>, n: nat) {
    !r.outcome.Passed? ==>
      i <= r.outcome.step < n && r.currentStep == r.outcome.step &&
      forall j :: j in r.stepOutputs ==> j in outs || j <= r.outcome.step
  }

  /** The inductive step of EndsAtRunStep, with the claim for step i + 1
      given. */
  lemma EndsAtStep(t: Tables, script: Script, envs: seq<StepEnv>, i: nat,
                   dev: map<string, Value>, outs: map<int, map<string, Value>>)
    requires 1 <= i < |script.steps|
    requires var s := RunStep(t, script, envs, i, dev, outs);
      s.Next? ==> EndsAt(RunFrom(t, script, envs, i + 1, s.device, s.stepOutputs), i + 1, s.stepOutputs, |script.steps|)
    ensures EndsAt(RunFrom(t, script, envs, i, dev, outs), i, outs, |script.steps|)
  {
    RunFromStep(t, script, envs, i, dev, outs);
  }

  /** A run that does not pass ends at a step it ran, the runner's current
      step is that step, and nothing is recorded for a later step. */
  lemma {:induction false} EndsAtRunStep(t: Tables, script: Script, envs: seq<StepEnv>, i: nat,
                                         dev: map<string, Value>, outs: map<int, map<string, Value>>)
    requires i >= 1
    ensures EndsAt(RunFrom(t, script, envs, i, dev, outs), i, outs, |script.steps|)
    decreases |script.steps| - i
  {
    if i < |script.steps| {
      var s := RunStep(t, script, envs, i, dev, outs);
      if s.Next? {
        EndsAtRunStep(t, script, envs, i + 1, s.device, s.stepOutputs);
      }
      EndsAtStep(t, script, envs, i, dev, outs);
    }
  }

  /** A run that passes went through the last step. */
  lemma {:induction false} PassedRanAll(t: Tables, script: Script, envs: seq<StepEnv>, i: nat,
                                        dev: map<string, Value>, outs: map<int, map<string, Value>>)
    requires 1 <= i < |script.steps|
    ensures var r := RunFrom(t, script, envs, i, dev, outs);
      r.outcome.Passed? ==> r.currentStep == |script.steps| - 1
    decreases |script.steps| - i
  {
    var s := RunStep(t, script, envs, i, dev, outs);
    if s.Next? && i + 1 < |script.steps| {
      PassedRanAll(t, script, envs, i + 1, s.device, s.stepOutputs);
    }
  }

  /** A passed run records every step from i on, and keeps what was
      recorded before. */
  lemma {:induction false} PassedRecordsAll(t: Tables, script: Script, envs: seq<StepEnv>, i: nat,
                                            dev: map<string, Value>, outs: map<int, map<string, Value>>)
    requires i >= 1
    ensures var r := RunFrom(t, script, envs, i, dev, outs);
      r.outcome.Passed? ==> forall j :: j in outs ==> j in r.stepOutputs
    ensures var r := RunFrom(t, script, envs, i, dev, outs);
      r.outcome.Passed? ==> forall j :: i <= j < |script.steps| ==> j in r.stepOutputs
    decreases |script.steps| - i
  {
    if i < |script.steps| {
      var s := RunStep(t, script, envs, i, dev, outs);
      if s.Next? {
        PassedRecordsAll(t, script, envs, i + 1, s.device, s.stepOutputs);
      }
    }
  }

  /** A failed run records every step from i up to the failing one, and
      keeps what was recorded before. */
  lemma {:induction false} FailedRecordsUpTo(t: Tables, script: Script, envs: seq<StepEnv>, i: nat,
                                             dev: map<string, Value>, outs: map<int, map<string, Value>>)
    requires i >= 1
    ensures var r := RunFrom(t, script, envs, i, dev, outs);
      r.outcome.Failed? ==> forall j :: j in outs ==> j in r.stepOutputs
    ensures var r := RunFrom(t, script, envs, i, dev, outs);
      r.outcome.Failed? ==> forall j :: i <= j <= r.outcome.step ==> j in r.stepOutputs
    decreases |script.steps| - i
  {
    if i < |script.steps| {
      var s := RunStep(t, script, envs, i, dev, outs);
      if s.Next? {
        FailedRecordsUpTo(t, script, envs, i + 1, s.device, s.stepOutputs);
      }
    }
  }

  /** Nothing is recorded but the steps of the script: every entry was
      there before, or is a step from i on. */
  lemma {:induction false} RecordsOnlySteps(t: Tables, script: Script, envs: seq<StepEnv>, i: nat,
                                            dev: map<string, Value>, outs: map<int, map<string, Value>>)
    requires i >= 1
    ensures forall j :: j in RunFrom(t, script, envs, i, dev, outs).stepOutputs ==>
      j in outs || i <= j < |script.steps|
    decreases |script.steps| - i
  {
    if i < |script.steps| {
      var s := RunStep(t, script, envs, i, dev, outs);
      if s.Next? {
        RecordsOnlySteps(t, script, envs, i + 1, s.device, s.stepOutputs);
      }
    }
  }

  /** A run from a fresh runner records exactly steps 1 to n-1 when it
      passes, and exactly steps 1 to k when it fails at step k. */
  lemma FreshRecord(t: Tables, script: Script, envs: seq<StepEnv>, dev: map<string, Value>)
    ensures var r := RunSpec(t, script, envs, dev);
      (r.outcome.Passed? ==> forall j :: j in r.stepOutputs <==> 1 <= j < |script.steps|) &&
      (r.outcome.Failed? ==> forall j :: j in r.stepOutputs <==> 1 <= j <= r.outcome.step)
  {
    PassedRecordsAll(t, script, envs, 1, dev, map[]);
    FailedRecordsUpTo(t, script, envs, 1, dev, map[]);
    RecordsOnlySteps(t, script, envs, 1, dev, map[]);
    EndsAtRunStep(t, script, envs, 1, dev, map[]);
  }

  /** The number of a step, the device and record it starts from, and
      what its assertion said. */
  datatype Start = Start(step: nat, device: map<string, Value>, stepOutputs: map<int, map<string, Value>>,
                         verdict: Option<Result<bool>>)

  /** The state each step starts from, from step i on, for as long as the
      run goes on: entry k is where step i + k starts. */
  function Trace(t: Tables, script: Script, envs: seq<StepEnv>, i: nat,
                 dev: map<string, Value>, outs: map<int, map<string, Value>>): (tr: seq<Start>)
    requires i >= 1
    ensures tr == [] <==> i >= |script.steps|
    ensures tr != [] ==> i + |tr| <= |script.steps| && tr[0].step == i && tr[0].device == dev && tr[0].stepOutputs == outs
    decreases |script.steps| - i
  {
    if i >= |script.steps| then []
    else
      var here := Start(i, dev, outs, StepVerdict(t, script, envs, i, dev, outs));
      match RunStep(t, script, envs, i, dev, outs)
      case Halt(_) => [here]
      case Next(d, o) => [here] + Trace(t, script, envs, i + 1, d, o)
  }

  /** One step of the trace: the entry of step i, then, if the step goes
      on, the trace from the next step. */
  lemma TraceUnfold(t: Tables, script: Script, envs: seq<StepEnv>, i: nat,
                    dev: map<string, Value>, outs: map<int, map<string, Value>>)
    requires 1 <= i < |script.steps|
    ensures var s := RunStep(t, script, envs, i, dev, outs);
      var here := Start(i, dev, outs, StepVerdict(t, script, envs, i, dev, outs));
      Trace(t, script, envs, i, dev, outs) ==
        if s.Next? then [here] + Trace(t, script, envs, i + 1, s.device, s.stepOutputs) else [here]
  {
  }

  /** The first entry of the trace, and the trace after it. */
  lemma TraceHead(t: Tables, script: Script, envs: seq<StepEnv>, i: nat,
                  dev: map<string, Value>, outs: map<int, map<string, Value>>)
    requires 1 <= i < |script.steps|
    ensures var tr := Trace(t, script, envs, i, dev, outs);
      var s := RunStep(t, script, envs, i, dev, outs);
      tr[0] == Start(i, dev, outs, StepVerdict(t, script, envs, i, dev, outs)) &&
      (1 < |tr| <==> s.Next? && i + 1 < |script.steps|) &&
      (s.Next? ==> tr[1..] == Trace(t, script, envs, i + 1, s.device, s.stepOutputs))
  {
    TraceUnfold(t, script, envs, i, dev, outs);
  }

  /** Whether tr is the trace from step i on, from this device and record.
      As with RunsTo, the statement is made for every j equal to i, so that
      the solver unfolds the trace only where a proof names it at j. */
  ghost predicate TraceIs(t: Tables, script: Script, envs: seq<StepEnv>, i: nat,
                          dev: map<string, Value>, outs: map<int, map<string, Value>>, tr: seq<Start>) {
    forall j: nat :: j == i && j >= 1 ==> tr == Trace(t, script, envs, j, dev, outs)
  }

  /** The first entry of a trace is the start of step i, with its verdict. */
  lemma TraceFirst(t: Tables, script: Script, envs: seq<StepEnv>, i: nat,
                   dev: map<string, Value>, outs: map<int, map<string, Value>>, tr: seq<Start>)
    requires i >= 1 && TraceIs(t, script, envs, i, dev, outs, tr) && tr != []
    ensures 1 <= i < |script.steps| && tr[0] == Start(i, dev, outs, StepVerdict(t, script, envs, i, dev, outs))
  {
    assert tr == Trace(t, script, envs, i, dev, outs);
    TraceHead(t, script, envs, i, dev, outs);
  }

  /** A trace past its first entry is the trace from step i + 1 on the
      state step i went on to. */
  lemma TraceTail(t: Tables, script: Script, envs: seq<StepEnv>, i: nat,
                  dev: map<string, Value>, outs: map<int, map<string, Value>>, tr: seq<Start>)
    returns (d: map<string, Value>, o: map<int, map<string, Value>>)
    requires i >= 1 && TraceIs(t, script, envs, i, dev, outs, tr) && 1 < |tr|
    ensures TraceIs(t, script, envs, i + 1, d, o, tr[1..])
    ensures i < |script.steps| && RunStep(t, script, envs, i, dev, outs) == Next(d, o)
  {
    assert tr == Trace(t, script, envs, i, dev, outs);
    TraceHead(t, script, envs, i, dev, outs);
    var s := RunStep(t, script, envs, i, dev, outs);
    d, o := s.device, s.stepOutputs;
  }

  /** Whether trace entry e holds the verdict of its step from the state
      it starts in. */
  predicate VerdictOf(t: Tables, script: Script, envs: seq<StepEnv>, e: Start) {
    1 <= e.step < |script.steps| &&
    e.verdict == StepVerdict(t, script, envs, e.step, e.device, e.stepOutputs)
  }

  /** TraceVerdictAt, over a trace given by TraceIs. */
  lemma {:induction false} VerdictAtEntry(t: Tables, script: Script, envs: seq<StepEnv>, i: nat,
                                          dev: map<string, Value>, outs: map<int, map<string, Value>>,
                                          tr: seq<Start>, k: nat)
    requires i >= 1 && TraceIs(t, script, envs, i, dev, outs, tr) && k < |tr|
    ensures tr[k].step == i + k && VerdictOf(t, script, envs, tr[k])
    decreases k
  {
    if k == 0 {
      TraceFirst(t, script, envs, i, dev, outs, tr);
    } else {
      var d, o := TraceTail(t, script, envs, i, dev, outs, tr);
      VerdictAtEntry(t, script, envs, i + 1, d, o, tr[1..], k - 1);
      assert tr[k] == tr[1..][k - 1];
    }
  }

  /** Entry k of the trace is step i + k, with that step's verdict from
      its state. */
  lemma TraceVerdictAt(t: Tables, script: Script, envs: seq<StepEnv>, i: nat,
                       dev: map<string, Value>, outs: map<int, map<string, Value>>, k: nat)
    requires i >= 1 && k < |Trace(t, script, envs, i, dev, outs)|
    ensures var e := Trace(t, script, envs, i, dev, outs)[k];
      e.step == i + k && VerdictOf(t, script, envs, e)
  {
    VerdictAtEntry(t, script, envs, i, dev, outs, Trace(t, script, envs, i, dev, outs), k);
  }

  /** Whether the step of trace entry e, run from the state of e, goes on
      to the state of entry f. */
  predicate LeadsTo(t: Tables, script: Script, envs: seq<StepEnv>, e: Start, f: Start) {
    1 <= e.step < |script.steps| &&
    RunStep(t, script, envs, e.step, e.device, e.stepOutputs) == Next(f.device, f.stepOutputs)
  }

  /** The step of the first entry of a trace goes on to the state of the
      second. */
  lemma FirstLeadsEntry(t: Tables, script: Script, envs: seq<StepEnv>, i: nat,
                        dev: map<string, Value>, outs: map<int, map<string, Value>>, tr: seq<Start>)
    requires i >= 1 && TraceIs(t, script, envs, i, dev, outs, tr) && 1 < |tr|
    ensures LeadsTo(t, script, envs, tr[0], tr[1])
  {
    var d, o := TraceTail(t, script, envs, i, dev, outs, tr);
    TraceFirst(t, script, envs, i, dev, outs, tr);
    TraceFirst(t, script, envs, i + 1, d, o, tr[1..]);
    assert tr[1] == tr[1..][0];
  }

  /** TraceNextAt, over a trace given by TraceIs. */
  lemma {:induction false} NextAtEntry(t: Tables, script: Script, envs: seq<StepEnv>, i: nat,
                                       dev: map<string, Value>, outs: map<int, map<string, Value>>,
                                       tr: seq<Start>, k: nat)
    requires i >= 1 && TraceIs(t, script, envs, i, dev, outs, tr) && k + 1 < |tr|
    ensures LeadsTo(t, script, envs, tr[k], tr[k + 1])
    decreases k
  {
    if k == 0 {
      FirstLeadsEntry(t, script, envs, i, dev, outs, tr);
    } else {
      var d, o := TraceTail(t, script, envs, i, dev, outs, tr);
      NextAtEntry(t, script, envs, i + 1, d, o, tr[1..], k - 1);
      assert tr[k] == tr[1..][k - 1] && tr[k + 1] == tr[1..][k];
    }
  }

  /** The step of entry k leads to the state of entry k + 1 (entry k is
      step i + k, by TraceVerdictAt). */
  lemma TraceNextAt(t: Tables, script: Script, envs: seq<StepEnv>, i: nat,
                    dev: map<string, Value>, outs: map<int, map<string, Value>>, k: nat)
    requires i >= 1 && k + 1 < |Trace(t, script, envs, i, dev, outs)|
    ensures var tr := Trace(t, script, envs, i, dev, outs);
      LeadsTo(t, script, envs, tr[k], tr[k + 1])
  {
    NextAtEntry(t, script, envs, i, dev, outs, Trace(t, script, envs, i, dev, outs), k);
  }

  /** Whether a verdict lets step j go on: the step got to its assertion
      and, past step 1, the assertion held. */
  predicate Passes(v: Option<Result<bool>>, j: nat) {
    v.Some? && (j == 1 || v.value == Ok(true))
  }

  /** Whether every entry of a trace that starts at step i let its step
      go on. */
  predicate StepsPass(tr: seq<Start>, i: nat) {
    forall k :: 0 <= k < |tr| ==> Passes(tr[k].verdict, i + k)
  }

  /** A trace with one more entry in front passes exactly when that entry
      and the rest do. */
  lemma StepsPassCons(h: Start, rest: seq<Start>, i: nat)
    ensures StepsPass([h] + rest, i) <==> Passes(h.verdict, i) && StepsPass(rest, i + 1)
  {
    var tr := [h] + rest;
    if Passes(h.verdict, i) && StepsPass(rest, i + 1) {
      forall k | 0 <= k < |tr| ensures Passes(tr[k].verdict, i + k) {
        if k > 0 { assert tr[k] == rest[k - 1]; }
      }
    }
    if StepsPass(tr, i) {
      assert tr[0] == h;
      forall k | 0 <= k < |rest| ensures Passes(rest[k].verdict, i + 1 + k) {
        assert tr[k + 1] == rest[k];
      }
    }
  }

  /** The inductive step of PassedAsserted, with the claim for step i + 1
      given. */
  lemma PassedAssertedStep(t: Tables, script: Script, envs: seq<StepEnv>, i: nat,
                           dev: map<string, Value>, outs: map<int, map<string, Value>>)
    requires 1 <= i < |script.steps|
    requires var s := RunStep(t, script, envs, i, dev, outs);
      s.Next? ==>
        var rest := Trace(t, script, envs, i + 1, s.device, s.stepOutputs);
        (RunFrom(t, script, envs, i + 1, s.device, s.stepOutputs).outcome.Passed? <==>
         (rest == [] || i + 1 + |rest| == |script.steps|) && StepsPass(rest, i + 1))
    ensures var tr := Trace(t, script, envs, i, dev, outs);
      RunFrom(t, script, envs, i, dev, outs).outcome.Passed? <==>
        (tr == [] || i + |tr| == |script.steps|) && StepsPass(tr, i)
  {
    var s := RunStep(t, script, envs, i, dev, outs);
    var here := Start(i, dev, outs, StepVerdict(t, script, envs, i, dev, outs));
    StepVerdictOutcome(t, script, envs, i, dev, outs);
    TraceUnfold(t, script, envs, i, dev, outs);
    RunFromStep(t, script, envs, i, dev, outs);
    if s.Next? {
      var rest := Trace(t, script, envs, i + 1, s.device, s.stepOutputs);
      StepsPassCons(here, rest, i);
    } else {
      StepsPassCons(here, [], i);
      assert [here] + [] == [here];
    }
  }

  /** A run passes exactly when it went through every step and each one
      got to its assertion and, past step 1, the assertion held. */
  lemma {:induction false} PassedAsserted(t: Tables, script: Script, envs: seq<StepEnv>, i: nat,
                                          dev: map<string, Value>, outs: map<int, map<string, Value>>)
    requires i >= 1
    ensures var tr := Trace(t, script, envs, i, dev, outs);
      RunFrom(t, script, envs, i, dev, outs).outcome.Passed? <==>
        (tr == [] || i + |tr| == |script.steps|) && StepsPass(tr, i)
    decreases |script.steps| - i
  {
    if i < |script.steps| {
      var s := RunStep(t, script, envs, i, dev, outs);
      if s.Next? {
        PassedAsserted(t, script, envs, i + 1, s.device, s.stepOutputs);
      }
      PassedAssertedStep(t, script, envs, i, dev, outs);
    }
  }

  /** Whether a run is a failure at the last entry of its trace, after
      every earlier entry passed. */
  predicate FailsAtLast(r: Run, tr: seq<Start>, i: nat) {
    r.outcome.Failed? ==>
      tr != [] && r.outcome.step == i + |tr| - 1 && r.outcome.step > 1 &&
      tr[|tr| - 1].verdict == Some(Ok(false)) && StepsPass(tr[..|tr| - 1], i)
  }

  /** The inductive step of FailedAsserted, with the claim for step i + 1
      given. */
  lemma FailedAssertedStep(t: Tables, script: Script, envs: seq<StepEnv>, i: nat,
                           dev: map<string, Value>, outs: map<int, map<string, Value>>)
    requires 1 <= i < |script.steps|
    requires var s := RunStep(t, script, envs, i, dev, outs);
      s.Next? ==> FailsAtLast(RunFrom(t, script, envs, i + 1, s.device, s.stepOutputs),
                              Trace(t, script, envs, i + 1, s.device, s.stepOutputs), i + 1)
    ensures FailsAtLast(RunFrom(t, script, envs, i, dev, outs), Trace(t, script, envs, i, dev, outs), i)
  {
    var s := RunStep(t, script, envs, i, dev, outs);
    var here := Start(i, dev, outs, StepVerdict(t, script, envs, i, dev, outs));
    StepVerdictOutcome(t, script, envs, i, dev, outs);
    TraceUnfold(t, script, envs, i, dev, outs);
    RunFromStep(t, script, envs, i, dev, outs);
    var tr := Trace(t, script, envs, i, dev, outs);
    if s.Next? {
      var rest := Trace(t, script, envs, i + 1, s.device, s.stepOutputs);
      if RunFrom(t, script, envs, i + 1, s.device, s.stepOutputs).outcome.Failed? {
        assert tr[..|tr| - 1] == [here] + rest[..|rest| - 1];
        assert tr[|tr| - 1] == rest[|rest| - 1];
        StepsPassCons(here, rest[..|rest| - 1], i);
      }
    } else {
      assert tr == [here];
      assert tr[..0] == [];
    }
  }

  /** A run fails at step k exactly as the assertion of step k, past step
      1, comes out false after the steps from i to k - 1 all passed. */
  lemma {:induction false} FailedAsserted(t: Tables, script: Script, envs: seq<StepEnv>, i: nat,
                                          dev: map<string, Value>, outs: map<int, map<string, Value>>)
    requires i >= 1
    ensures FailsAtLast(RunFrom(t, script, envs, i, dev, outs), Trace(t, script, envs, i, dev, outs), i)
    decreases |script.steps| - i
  {
    if i < |script.steps| {
      var s := RunStep(t, script, envs, i, dev, outs);
      if s.Next? {
        FailedAsserted(t, script, envs, i + 1, s.device, s.stepOutputs);
      }
      FailedAssertedStep(t, script, envs, i, dev, outs);
    }
  }

  /** start_test from a fresh runner passes exactly when every step from 1
      to n-1 got to its assertion and every step from 2 on asserted true;
      it fails at step k exactly when steps 1 to k-1 did so and the
      assertion of step k, k >= 2, came out false. */
  lemma RunSpecAsserted(t: Tables, script: Script, envs: seq<StepEnv>, dev: map<string, Value>)
    ensures var tr := Trace(t, script, envs, 1, dev, map[]);
      var r := RunSpec(t, script, envs, dev);
      (r.outcome.Passed? <==> (tr == [] || |tr| + 1 == |script.steps|) && StepsPass(tr, 1)) &&
      FailsAtLast(r, tr, 1)
  {
    PassedAsserted(t, script, envs, 1, dev, map[]);
    FailedAsserted(t, script, envs, 1, dev, map[]);
  }

  /** The "last" lookup of an assertion never misses: whenever a step
      after the first is asserted, the previous step is on record. */
  lemma {:induction false} NeverMissingStep(t: Tables, script: Script, envs: seq<StepEnv>, i: nat,
                                            dev: map<string, Value>, outs: map<int, map<string, Value>>)
    requires i == 1 || (i > 1 && i - 1 in outs)
    ensures var r := RunFrom(t, script, envs, i, dev, outs);
      r.outcome.Aborted? ==> !r.outcome.error.MissingStep?
    decreases |script.steps| - i
  {
    if i < |script.steps| {
      var s := RunStep(t, script, envs, i, dev, outs);
      if s.Next? {
        assert i in s.stepOutputs;
        NeverMissingStep(t, script, envs, i + 1, s.device, s.stepOutputs);
      }
    }
  }


  /** The --reset entry point (src/Test.py:271-273): set_values on the row
      of the first step; a script without that row raises. */
  function Reset(t: Tables, script: Script, dev: map<string, Value>): (r: Applied)
    ensures |script.steps| < 2 ==> r.error == Some(MissingStep(1)) && r.device == dev
    ensures r.error == None ==> forall j :: 0 <= j < |script.steps[1].inputs| ==> script.steps[1].inputs[j].0 in r.device
  {
    if |script.steps| < 2 then Applied(dev, Some(MissingStep(1)))
    else SetValuesSpec(t, dev, script.steps[1].inputs)
  }

  /** Resetting twice is resetting once when the first row holds no
      expression and names no point twice. */
  lemma ResetIdempotent(t: Tables, script: Script, dev: map<string, Value>)
    requires |script.steps| >= 2
    requires LiteralOnly(script.steps[1].inputs) && DistinctKeys(script.steps[1].inputs)
    ensures Reset(t, script, Reset(t, script, dev).device) == Reset(t, script, dev)
  {
    LiteralRowIdempotent(t, dev, script.steps[1].inputs);
  }
}
