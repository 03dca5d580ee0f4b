/** The Test object of src/Test.py as a stateful runner: the point tables
    are fixed when it is built, and its methods update the device, the
    record of step outputs and the current step in place, as the source's
    methods do. Each method is proved to do what the matching function of
    the other modules specifies. */
module Runner {
  import opened Values
  import opened Text
  import opened Expression
  import opened ExpressionLaws
  import opened Inputs
  import opened Wait
  import opened Assertion
  import opened Sequencer

  class TestRun {
    /** The alias and units tables read at start-up. */
    const tables: Tables
    /** The controller's points and their current values. */
    var device: map<string, Value>
    /** step_outputs: the outputs read back after each step. */
    var stepOutputs: map<int, map<string, Value>>
    /** current_step; 0 stands for None. */
    var currentStep: nat

    /** A runner on a freshly reset device: no step started, nothing
        recorded. */
    constructor (tables: Tables, device: map<string, Value>)
      ensures this.tables == tables && this.device == device
      ensures stepOutputs == map[] && currentStep == 0
    {
      this.tables := tables;
      this.device := device;
      stepOutputs := map[];
      currentStep := 0;
    }

    /** The operator loop of get_value_from_expression: + - * / in this
        order, stopping at the first that occurs in e. */
    method FindOperator(e: seq<Sym>) returns (found: Option<char>)
      ensures found == FirstOperator(e)
    {
      var ops := ['+', '-', '*', '/'];
      found := None;
      var k := 0;
      while k < |ops| && found.None?
        invariant 0 <= k <= |ops|
        invariant found.None? ==> forall m :: 0 <= m < k ==> C(ops[m]) !in e
        invariant found.Some? ==> found == FirstOperator(e)
      {
        assert ops[0] == '+' && ops[1] == '-' && ops[2] == '*' && ops[3] == '/';
        if C(ops[k]) in e {
          found := Some(ops[k]);
        }
        k := k + 1;
      }
      assert ops[0] == '+' && ops[1] == '-' && ops[2] == '*' && ops[3] == '/';
    }

    /** get_value_from_expression: the first of + - * / that occurs splits
        the expression, and the parts are evaluated recursively and folded
        left to right; a token with no operator is an alias or a literal. */
    method GetValueFromExpression(e: seq<Sym>) returns (r: Result<real>)
      ensures r == FlatEval(tables, device, e)
      decreases |e|, 1
    {
      var found := FindOperator(e);
      if found.None? {
        FlatEvalBare(tables, device, e);
        return Bare(tables, device, e);
      }
      var op := found.value;
      FlatEvalSplit(tables, device, e, op);
      r := FoldSplit(op, Split(e, C(op)), |e|);
    }

    /** The loop over the parts of one split: each part is evaluated in
        turn, and a running result of None or 0 is replaced by the part's
        value rather than combined with it. */
    method FoldSplit(op: char, parts: seq<seq<Sym>>, ghost bound: nat) returns (r: Result<real>)
      requires |parts| > 0 && forall i :: 0 <= i < |parts| ==> |parts[i]| < bound
      ensures r == FoldParts(tables, device, op, parts, None, bound)
      decreases bound, 0
    {
      var result: Option<real> := None;
      assert parts[0..] == parts;
      var j := 0;
      while j < |parts|
        invariant 0 <= j <= |parts|
        invariant j > 0 ==> result.Some?
        invariant FoldParts(tables, device, op, parts, None, bound) == FoldParts(tables, device, op, parts[j..], result, bound)
      {
        var current := GetValueFromExpression(parts[j]);
        if current.Err? {
          FoldPartsFails(tables, device, op, parts, j, result, bound);
          return current;
        }
        var v := current.value;
        ghost var before := result;
        if result.Some? && result.value != 0.0 {
          var combined := Apply(op, result.value, v);
          if combined.Err? {
            FoldPartsStepFails(tables, device, op, parts, j, before, bound, v);
            return combined;
          }
          result := Some(combined.value);
        } else {
          result := Some(v);
        }
        FoldPartsStep(tables, device, op, parts, j, before, bound, v, result.value);
        j := j + 1;
      }
      r := Ok(result.value);
    }

    /** evaluate_expression: while a ')' is left, the group it closes is
        evaluated and every copy of its text is replaced by the value as
        str() prints it;
        then the rest is evaluated flat. */
    method EvaluateExpression(expression: string) returns (r: Result<real>)
      ensures r == Eval(tables, device, ToSyms(expression))
    {
      var e := ToSyms(expression);
      while C(')') in e
        invariant Reduce(tables, device, ToSyms(expression)) == Reduce(tables, device, e)
        decreases multiset(e)[C(')')]
      {
        var close := FirstIndex(e, C(')')).value;
        var open := LastIndex(e[..close], C('('));
        if open.None? {
          return Err(UnmatchedClose);
        }
        var s := open.value;
        assert e[s + 1..close] == e[..close][s + 1..];
        assert NextGroup(e) == Some((s, close));
        var v := GetValueFromExpression(e[s + 1..close]);
        if v.Err? {
          ReduceRoundFails(tables, device, e, s, close);
          return Err(v.error);
        }
        ReduceRound(tables, device, e, s, close, v.value);
        GroupShrinks(e, s, close, v.value);
        e := ReplaceAll(e, e[s..close + 1], Spliced(v.value));
      }
      r := GetValueFromExpression(e);
    }

    /** set_values: each cell in turn is resolved against the device as it
        stands and written to it; an error stops the loop and keeps the
        writes already made. */
    method SetValues(cells: seq<(string, Cell)>) returns (err: Option<Error>)
      modifies this
      ensures Applied(device, err) == SetValuesSpec(tables, old(device), cells)
      ensures stepOutputs == old(stepOutputs) && currentStep == old(currentStep)
    {
      var k := 0;
      while k < |cells|
        invariant 0 <= k <= |cells|
        invariant SetValuesSpec(tables, old(device), cells) == SetValuesSpec(tables, device, cells[k..])
        invariant stepOutputs == old(stepOutputs) && currentStep == old(currentStep)
      {
        var key, cell := cells[k].0, cells[k].1;
        assert cells[k..][0] == cells[k] && cells[k..][1..] == cells[k + 1..];
        var toSet: Value;
        match cell {
          case CNum(x) =>
            toSet := Num(x);
          case CStr(s) =>
            var v := StripSpaces(s);
            if |v| > 0 && v[0] == '=' {
              var x := EvaluateExpression(v[1..]);
              if x.Err? {
                return Some(x.error);
              }
              toSet := Num(x.value);
            } else if OnWord(Lower(v)) {
              toSet := Tok("active");
            } else if OffWord(Lower(v)) {
              toSet := Tok("inactive");
            } else {
              toSet := Tok(v);
            }
        }
        SetValuesStep(tables, device, cells[k..], toSet);
        device := device[key := toSet];
        k := k + 1;
      }
      err := None;
    }

    /** The --reset entry point: set_values on the row of the first step;
        a script without that row raises. */
    method ResetPoints(script: Script) returns (err: Option<Error>)
      modifies this
      ensures Applied(device, err) == Reset(tables, script, old(device))
      ensures stepOutputs == old(stepOutputs) && currentStep == old(currentStep)
    {
      if |script.steps| < 2 {
        return Some(MissingStep(1));
      }
      err := SetValues(script.steps[1].inputs);
    }

    /** test_conditions over the polls the world supplies: wait while the
        elapsed time is within the budget, and with the clause on, return
        as soon as the scaled reading reaches the threshold. */
    method TestConditions(cond: Condition, samples: seq<Sample>) returns (r: Result<WaitOutcome>)
      ensures r == WaitSpec(tables, cond, samples)
    {
      var k := 0;
      while k < |samples| && samples[k].elapsed <= cond.clkTime
        invariant 0 <= k <= |samples|
        invariant WaitSpec(tables, cond, samples) == WaitFrom(tables, cond, samples, k)
        decreases |samples| - k
      {
        if cond.orFlag == 1.0 {
          var point := cond.variable;
          if point !in tables.units {
            return Err(MissingKey(point));
          }
          var reading := samples[k].reading;
          if reading.Tok? {
            return Err(Incomparable(point));
          }
          var actual := reading.x;
          if tables.units[point] == "percent" {
            actual := actual / 100.0;
          }
          if actual >= cond.threshold {
            return Ok(Woke(k));
          }
        }
        k := k + 1;
      }
      if k == |samples| {
        r := Ok(Exhausted);
      } else {
        r := Ok(TimedOut(k));
      }
    }

    /** get_current_variable_values: the named points read off the device
        into a fresh dictionary. */
    method GetCurrentVariableValues(names: seq<string>) returns (r: Result<map<string, Value>>)
      ensures r == Capture(device, names)
    {
      var vals: map<string, Value> := map[];
      for k := 0 to |names|
        invariant forall x :: x in vals ==> x in device && vals[x] == device[x]
        invariant Capture(device, names) == CaptureFrom(device, names, k, vals)
      {
        var name := names[k];
        if name !in device {
          return Err(UnknownPoint(name));
        }
        vals := vals[name := device[name]];
      }
      r := Ok(vals);
    }

    /** assert_output for the current step: the columns in order, each
        checked as CheckKey says, the first failure or error ending the
        loop. */
    method AssertOutputs(expected: seq<(string, Cell)>, actual: map<string, Value>, bounds: map<string, real>)
      returns (r: Result<bool>)
      ensures r == AssertOutput(tables, device, stepOutputs, currentStep, expected, actual, bounds)
    {
      var k := 0;
      while k < |expected|
        invariant 0 <= k <= |expected|
        invariant AssertOutput(tables, device, stepOutputs, currentStep, expected, actual, bounds) ==
          AssertOutput(tables, device, stepOutputs, currentStep, expected[k..], actual, bounds)
      {
        var key, cell := expected[k].0, expected[k].1;
        assert expected[k..][0] == expected[k] && expected[k..][1..] == expected[k + 1..];
        if key !in actual || key !in bounds {
          return Err(MissingKey(key));
        }
        var a, bound := Normalised(actual[key]), bounds[key];
        match cell {
          case CStr(s) =>
            if s != "Any" {
              var at := FindSub(s, "last");
              if at.Some? {
                var pass := LastCheck(s[..at.value], a, key, currentStep, stepOutputs);
                if pass != Ok(true) {
                  return pass;
                }
              } else if |s| > 0 && s[0] == '=' {
                var ev := EvaluateExpression(s[1..]);
                if ev.Err? {
                  return Err(ev.error);
                }
                if !Within(ev.value, a, bound) {
                  return Ok(false);
                }
              }
            }
          case CNum(x) =>
            if key !in tables.units {
              return Err(MissingKey(key));
            }
            if tables.units[key] == "percent" {
              a := a / 100.0;
            }
            if !Within(x, a, bound) {
              return Ok(false);
            }
        }
        k := k + 1;
      }
      r := Ok(true);
    }

    /** The body of start_test's loop for step i: set current_step, write
        the inputs, wait, read the outputs back, record them and, after the
        first step, assert them. It returns the outcome when the run stops
        here and None when it goes on; run is the run from step i on, as
        the run specification gives it. */
    method RunOneStep(script: Script, envs: seq<StepEnv>, i: nat, ghost run: Run) returns (halt: Option<RunOutcome>)
      requires 1 <= i < |script.steps|
      requires RunsTo(tables, script, envs, i, device, stepOutputs, run)
      modifies this
      ensures halt.None? ==> RunsTo(tables, script, envs, i + 1, device, stepOutputs, run)
      ensures halt.Some? ==> run == Run(device, stepOutputs, i, halt.value)
      ensures currentStep == i
    {
      assert run == RunFrom(tables, script, envs, i, device, stepOutputs);
      RunFromStep(tables, script, envs, i, device, stepOutputs);
      currentStep := i;
      var step := script.steps[i];
      var err := SetValues(step.inputs);
      if err.Some? {
        return Some(Aborted(i, err.value));
      }
      if i >= |envs| {
        return Some(Stalled(i));
      }
      var waited := TestConditions(step.cond, envs[i].samples);
      if waited.Err? {
        return Some(Aborted(i, waited.error));
      }
      if waited.value.Exhausted? {
        return Some(Stalled(i));
      }
      device := device + envs[i].observed;
      var actual := GetCurrentVariableValues(Names(step.expected));
      if actual.Err? {
        return Some(Aborted(i, actual.error));
      }
      stepOutputs := stepOutputs[i := actual.value];
      if i > 1 {
        var passed := AssertOutputs(step.expected, actual.value, script.bounds);
        if passed.Err? {
          return Some(Aborted(i, passed.error));
        }
        if !passed.value {
          return Some(Failed(i));
        }
      }
      halt := None;
    }

    /** start_test: steps 1 to n-1 in order, stopping at the first step
        whose assertion fails or that raises. The runner ends in the state
        the run specification gives: the same device, record, current step
        and outcome. */
    method StartTest(script: Script, envs: seq<StepEnv>) returns (outcome: RunOutcome)
      modifies this
      ensures var run := RunFrom(tables, script, envs, 1, old(device), old(stepOutputs));
        outcome == run.outcome && device == run.device && stepOutputs == run.stepOutputs
      ensures |script.steps| > 1 ==>
        currentStep == RunFrom(tables, script, envs, 1, old(device), old(stepOutputs)).currentStep
      ensures |script.steps| <= 1 ==> currentStep == old(currentStep)
    {
      ghost var run := RunFrom(tables, script, envs, 1, device, stepOutputs);
      var i := 1;
      while i < |script.steps|
        invariant 1 <= i && (i <= |script.steps| || i == 1)
        invariant RunsTo(tables, script, envs, i, device, stepOutputs, run)
        invariant currentStep == if i == 1 then old(currentStep) else i - 1
        decreases |script.steps| - i
      {
        var halt := RunOneStep(script, envs, i, run);
        if halt.Some? {
          return halt.value;
        }
        i := i + 1;
      }
      RunsToEnd(tables, script, envs, i, device, stepOutputs, run);
      outcome := Passed;
    }
  }
}
