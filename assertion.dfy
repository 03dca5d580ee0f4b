/** assert_output (src/Test.py:165-218): every expected output of a step is
    compared with what the device reported, in column order, and the first
    failing column ends the check with False. */
module Assertion {
  import opened Values
  import opened Text
  import opened Expression

  function Abs(x: real): (r: real)
    ensures r >= 0.0 && (r == x || r == -x)
  {
    if x < 0.0 then -x else x
  }

  /** A reported value as a number: the token "inactive" counts as 0 and
      every other token as 1. */
  function Normalised(v: Value): (r: real)
    ensures v.Tok? ==> (r == 0.0 <==> v.s == "inactive")
    ensures v.Tok? ==> (r == 0.0 || r == 1.0)
    ensures v.Num? ==> r == v.x
  {
    match v
    case Num(x) => x
    case Tok(s) => if s == "inactive" then 0.0 else 1.0
  }

  /** Whether expected and actual agree within the bound; a difference
      equal to the bound is accepted. */
  predicate Within(expected: real, actual: real, bound: real)
    ensures Within(expected, actual, bound) <==> actual - bound <= expected <= actual + bound
  {
    !(Abs(expected - actual) > bound)
  }

  /** The four ordering operators a "<op>last" cell may name. */
  predicate IsOrdering(op: string) { op == ">" || op == ">=" || op == "<" || op == "<=" }

  function Compare(op: string, a: real, b: real): (r: bool)
    requires IsOrdering(op)
  {
    if op == ">" then a > b else if op == ">=" then a >= b else if op == "<" then a < b else a <= b
  }

  /** The "<op>last" branch: the actual value against the value the same
      point had at the end of the previous step. Ordering a number against
      a token raises; equality with a token is simply false; an operator
      outside the five fails. */
  function LastCheck(op: string, a: real, key: string, step: int,
                     stepOutputs: map<int, map<string, Value>>): (r: Result<bool>)
    ensures r.Err? ==> r.error == MissingStep(step - 1) || r.error == MissingKey(key) || r.error == Incomparable(key)
    ensures r.Err? && r.error.MissingStep? <==> step - 1 !in stepOutputs
    ensures step - 1 in stepOutputs && key in stepOutputs[step - 1] ==>
      var last := stepOutputs[step - 1][key];
      (r == Ok(true) <==> (IsOrdering(op) && last.Num? && Compare(op, a, last.x)) || (op == "==" && last == Num(a)))
    ensures r.Err? && r.error.Incomparable? ==> IsOrdering(op)
    ensures step - 1 in stepOutputs && key !in stepOutputs[step - 1] ==> r == Err(MissingKey(key))
    ensures step - 1 in stepOutputs && key in stepOutputs[step - 1] && r.Err? ==>
      r == Err(Incomparable(key)) && IsOrdering(op) && stepOutputs[step - 1][key].Tok?
  {
    if step - 1 !in stepOutputs then Err(MissingStep(step - 1))
    else if key !in stepOutputs[step - 1] then Err(MissingKey(key))
    else
      var last := stepOutputs[step - 1][key];
      if IsOrdering(op) then
        match last
        case Tok(_) => Err(Incomparable(key))
        case Num(y) => Ok(Compare(op, a, y))
      else if op == "==" then Ok(last == Num(a))
      else Ok(false)
  }

  /** The check of one output column. The actual value and the bound are
      looked up first, so a missing one raises even for "Any". */
  function CheckKey(t: Tables, dev: map<string, Value>, stepOutputs: map<int, map<string, Value>>, step: int,
                    key: string, expected: Cell, actual: map<string, Value>, bounds: map<string, real>): (r: Result<bool>)
    ensures key !in actual || key !in bounds ==> r == Err(MissingKey(key))
    ensures r.Err? && r.error.MissingStep? ==> step - 1 !in stepOutputs
  {
    if key !in actual || key !in bounds then Err(MissingKey(key))
    else
      var a, bound := Normalised(actual[key]), bounds[key];
      match expected
      case CStr(s) =>
        if s == "Any" then Ok(true)
        else (match FindSub(s, "last")
          case Some(i) => LastCheck(s[..i], a, key, step, stepOutputs)
          case None =>
            if |s| > 0 && s[0] == '=' then
              (match Eval(t, dev, ToSyms(s[1..]))
               case Err(x) => Err(x)
               case Ok(ev) => Ok(Within(ev, a, bound)))
            else Ok(true))
      case CNum(x) =>
        if key !in t.units then Err(MissingKey(key))
        else Ok(Within(x, Scaled(t, key, a), bound))
  }

  /** assert_output: the columns in order; the first that fails gives
      False, an error stops the check, and True needs every column. */
  function AssertOutput(t: Tables, dev: map<string, Value>, stepOutputs: map<int, map<string, Value>>, step: int,
                        expected: seq<(string, Cell)>, actual: map<string, Value>, bounds: map<string, real>): (r: Result<bool>)
    ensures r.Err? && r.error.MissingStep? ==> step - 1 !in stepOutputs
    decreases |expected|
  {
    if expected == [] then Ok(true)
    else match CheckKey(t, dev, stepOutputs, step, expected[0].0, expected[0].1, actual, bounds)
      case Err(x) => Err(x)
      case Ok(false) => Ok(false)
      case Ok(true) => AssertOutput(t, dev, stepOutputs, step, expected[1..], actual, bounds)
  }

  /** True exactly when every column passes. */
  lemma {:induction false} AllPass(t: Tables, dev: map<string, Value>, stepOutputs: map<int, map<string, Value>>, step: int,
                                   expected: seq<(string, Cell)>, actual: map<string, Value>, bounds: map<string, real>)
    ensures AssertOutput(t, dev, stepOutputs, step, expected, actual, bounds) == Ok(true) <==>
      forall i :: 0 <= i < |expected| ==>
        CheckKey(t, dev, stepOutputs, step, expected[i].0, expected[i].1, actual, bounds) == Ok(true)
    decreases |expected|
  {
    if expected != [] {
      AllPass(t, dev, stepOutputs, step, expected[1..], actual, bounds);
      assert forall i :: 1 <= i < |expected| ==> expected[1..][i - 1] == expected[i];
    }
  }

  /** Whether the first j columns all pass. */
  predicate PassBefore(t: Tables, dev: map<string, Value>, stepOutputs: map<int, map<string, Value>>, step: int,
                       expected: seq<(string, Cell)>, actual: map<string, Value>, bounds: map<string, real>, j: nat)
    requires j <= |expected|
  {
    forall i :: 0 <= i < j ==> CheckKey(t, dev, stepOutputs, step, expected[i].0, expected[i].1, actual, bounds) == Ok(true)
  }

  /** False exactly when some column fails and every column before it
      passes: the check stops at the first failure. */
  lemma FirstFailure(t: Tables, dev: map<string, Value>, stepOutputs: map<int, map<string, Value>>, step: int,
                      expected: seq<(string, Cell)>, actual: map<string, Value>, bounds: map<string, real>)
    ensures AssertOutput(t, dev, stepOutputs, step, expected, actual, bounds) == Ok(false) <==>
      exists j :: 0 <= j < |expected| &&
        CheckKey(t, dev, stepOutputs, step, expected[j].0, expected[j].1, actual, bounds) == Ok(false) &&
        PassBefore(t, dev, stepOutputs, step, expected, actual, bounds, j)
  {
    if AssertOutput(t, dev, stepOutputs, step, expected, actual, bounds) == Ok(false) {
      FailureWitness(t, dev, stepOutputs, step, expected, actual, bounds);
    }
    forall j | 0 <= j < |expected| &&
        CheckKey(t, dev, stepOutputs, step, expected[j].0, expected[j].1, actual, bounds) == Ok(false) &&
        PassBefore(t, dev, stepOutputs, step, expected, actual, bounds, j)
      ensures AssertOutput(t, dev, stepOutputs, step, expected, actual, bounds) == Ok(false)
    {
      FailureAt(t, dev, stepOutputs, step, expected, actual, bounds, j);
    }
  }

  /** A check that comes out false has a first failing column. */
  lemma {:induction false} FailureWitness(t: Tables, dev: map<string, Value>, stepOutputs: map<int, map<string, Value>>, step: int,
                                          expected: seq<(string, Cell)>, actual: map<string, Value>, bounds: map<string, real>)
    requires AssertOutput(t, dev, stepOutputs, step, expected, actual, bounds) == Ok(false)
    ensures exists j :: 0 <= j < |expected| &&
                        CheckKey(t, dev, stepOutputs, step, expected[j].0, expected[j].1, actual, bounds) == Ok(false) &&
                        PassBefore(t, dev, stepOutputs, step, expected, actual, bounds, j)
    decreases |expected|
  {
    if CheckKey(t, dev, stepOutputs, step, expected[0].0, expected[0].1, actual, bounds) == Ok(false) {
      assert PassBefore(t, dev, stepOutputs, step, expected, actual, bounds, 0);
    } else {
      var tail := expected[1..];
      FailureWitness(t, dev, stepOutputs, step, tail, actual, bounds);
      var k :| 0 <= k < |tail| &&
        CheckKey(t, dev, stepOutputs, step, tail[k].0, tail[k].1, actual, bounds) == Ok(false) &&
        PassBefore(t, dev, stepOutputs, step, tail, actual, bounds, k);
      assert tail[k] == expected[k + 1];
      assert PassBefore(t, dev, stepOutputs, step, expected, actual, bounds, k + 1) by {
        assert forall i :: 1 <= i < k + 1 ==> expected[i] == tail[i - 1];
      }
    }
  }

  /** A failing column j after j passing ones makes the check false. */
  lemma {:induction false} FailureAt(t: Tables, dev: map<string, Value>, stepOutputs: map<int, map<string, Value>>, step: int,
                                     expected: seq<(string, Cell)>, actual: map<string, Value>, bounds: map<string, real>, j: nat)
    requires j < |expected|
    requires CheckKey(t, dev, stepOutputs, step, expected[j].0, expected[j].1, actual, bounds) == Ok(false)
    requires PassBefore(t, dev, stepOutputs, step, expected, actual, bounds, j)
    ensures AssertOutput(t, dev, stepOutputs, step, expected, actual, bounds) == Ok(false)
    decreases j
  {
    if j > 0 {
      var tail := expected[1..];
      assert CheckKey(t, dev, stepOutputs, step, expected[0].0, expected[0].1, actual, bounds) == Ok(true);
      assert tail[j - 1] == expected[j];
      assert PassBefore(t, dev, stepOutputs, step, tail, actual, bounds, j - 1) by {
        assert forall i :: 0 <= i < j - 1 ==> tail[i] == expected[i + 1];
      }
      FailureAt(t, dev, stepOutputs, step, tail, actual, bounds, j - 1);
      assert AssertOutput(t, dev, stepOutputs, step, expected, actual, bounds) ==
             AssertOutput(t, dev, stepOutputs, step, tail, actual, bounds);
    }
  }

  /** "Any" passes whatever the device reported. */
  lemma AnyPasses(t: Tables, dev: map<string, Value>, stepOutputs: map<int, map<string, Value>>, step: int,
                  key: string, actual: map<string, Value>, bounds: map<string, real>)
    requires key in actual && key in bounds
    ensures CheckKey(t, dev, stepOutputs, step, key, CStr("Any"), actual, bounds) == Ok(true)
  {
  }

  /** "last" is found right after an operator made of comparison signs. */
  lemma LastAfterOperator(op: string)
    requires forall k :: 0 <= k < |op| ==> op[k] != 'l'
    ensures FindSub(op + "last", "last") == Some(|op|)
  {
    var s := op + "last";
    assert OccursAt(s, "last", |op|) by { assert s[|op|..|op| + 4] == "last"; }
    forall j | 0 <= j < |op|
      ensures !OccursAt(s, "last", j)
    {
      if j + 4 <= |s| { assert s[j..j + 4][0] == op[j]; }
    }
  }

  /** "<op>last" compares the normalised actual value with the raw value
      recorded for the same point at the previous step, and passes only
      for one of the five operators that holds. */
  lemma LastBranch(t: Tables, dev: map<string, Value>, stepOutputs: map<int, map<string, Value>>, step: int,
                   key: string, op: string, actual: map<string, Value>, bounds: map<string, real>)
    requires op == ">" || op == ">=" || op == "<" || op == "<=" || op == "=="
    requires key in actual && key in bounds
    ensures CheckKey(t, dev, stepOutputs, step, key, CStr(op + "last"), actual, bounds)
         == LastCheck(op, Normalised(actual[key]), key, step, stepOutputs)
  {
    LastAfterOperator(op);
    assert (op + "last")[..|op|] == op;
  }

  /** With the previous step's value y on record, "<op>last" passes exactly
      when the operator holds between the actual value and y. */
  lemma LastAgainstNumber(stepOutputs: map<int, map<string, Value>>, step: int, key: string, op: string, a: real, y: real)
    requires IsOrdering(op)
    requires step - 1 in stepOutputs && key in stepOutputs[step - 1] && stepOutputs[step - 1][key] == Num(y)
    ensures LastCheck(op, a, key, step, stepOutputs) == Ok(Compare(op, a, y))
  {
  }

  /** ">last" with 5 on record for the step before: an actual 6 passes and
      an actual 5 fails. */
  lemma GreaterThanLastExample(key: string)
    ensures LastCheck(">", 6.0, key, 2, map[1 := map[key := Num(5.0)]]) == Ok(true)
    ensures LastCheck(">", 5.0, key, 2, map[1 := map[key := Num(5.0)]]) == Ok(false)
  {
  }

  /** An operator that is not one of the five fails the check. */
  lemma LastUnknownOperator(stepOutputs: map<int, map<string, Value>>, step: int, key: string, op: string, a: real)
    requires !IsOrdering(op) && op != "=="
    requires step - 1 in stepOutputs && key in stepOutputs[step - 1]
    ensures LastCheck(op, a, key, step, stepOutputs) == Ok(false)
  {
  }

  /** "=expr" (without "last"): the expression is evaluated against the
      live device and compared with the unscaled actual value; the check
      fails exactly when they differ by more than the bound. */
  lemma FormulaBranch(t: Tables, dev: map<string, Value>, stepOutputs: map<int, map<string, Value>>, step: int,
                      key: string, s: string, actual: map<string, Value>, bounds: map<string, real>, ev: real)
    requires key in actual && key in bounds
    requires |s| > 0 && s[0] == '=' && FindSub(s, "last").None?
    requires Eval(t, dev, ToSyms(s[1..])) == Ok(ev)
    ensures var r := CheckKey(t, dev, stepOutputs, step, key, CStr(s), actual, bounds);
      r.Ok? && (r == Ok(false) <==> Abs(ev - Normalised(actual[key])) > bounds[key])
  {
    assert s != "Any" by { assert "Any"[0] == 'A'; }
    var a := Normalised(actual[key]);
    assert CheckKey(t, dev, stepOutputs, step, key, CStr(s), actual, bounds) == Ok(Within(ev, a, bounds[key]));
  }

  /** An "=expr" cell whose expression raises makes the check raise. */
  lemma FormulaRaises(t: Tables, dev: map<string, Value>, stepOutputs: map<int, map<string, Value>>, step: int,
                      key: string, s: string, actual: map<string, Value>, bounds: map<string, real>)
    requires key in actual && key in bounds
    requires |s| > 0 && s[0] == '=' && FindSub(s, "last").None?
    requires Eval(t, dev, ToSyms(s[1..])).Err?
    ensures CheckKey(t, dev, stepOutputs, step, key, CStr(s), actual, bounds) == Err(Eval(t, dev, ToSyms(s[1..])).error)
  {
    assert s != "Any" by { assert "Any"[0] == 'A'; }
  }

  /** A numeric expected value: the actual value is divided by 100 on a
      percent point, and the check fails exactly when the difference
      exceeds the bound. */
  lemma NumericBranch(t: Tables, dev: map<string, Value>, stepOutputs: map<int, map<string, Value>>, step: int,
                      key: string, x: real, actual: map<string, Value>, bounds: map<string, real>)
    requires key in actual && key in bounds && key in t.units
    ensures var r := CheckKey(t, dev, stepOutputs, step, key, CNum(x), actual, bounds);
      var a := Normalised(actual[key]);
      r.Ok? &&
      (IsPercent(t, key) ==> (r == Ok(false) <==> Abs(x - a / 100.0) > bounds[key])) &&
      (!IsPercent(t, key) ==> (r == Ok(false) <==> Abs(x - a) > bounds[key]))
  {
  }

  /** A difference exactly equal to the bound is accepted. */
  lemma BoundaryPasses(t: Tables, dev: map<string, Value>, stepOutputs: map<int, map<string, Value>>, step: int,
                       key: string, x: real, actual: map<string, Value>, bounds: map<string, real>)
    requires key in actual && key in bounds && key in t.units && !IsPercent(t, key)
    requires Abs(x - Normalised(actual[key])) == bounds[key]
    ensures CheckKey(t, dev, stepOutputs, step, key, CNum(x), actual, bounds) == Ok(true)
  {
  }

  /** A string that is not "Any", holds no "last" and does not start with
      '=' is not checked at all. */
  lemma OtherStringPasses(t: Tables, dev: map<string, Value>, stepOutputs: map<int, map<string, Value>>, step: int,
                          key: string, s: string, actual: map<string, Value>, bounds: map<string, real>)
    requires key in actual && key in bounds
    requires s != "Any" && FindSub(s, "last").None? && !(|s| > 0 && s[0] == '=')
    ensures CheckKey(t, dev, stepOutputs, step, key, CStr(s), actual, bounds) == Ok(true)
  {
  }

  /** 70 with a bound of 0.5: 70.4 passes, 70.6 fails, and an "on" token
      counts as 1 against an expected 1. */
  lemma ToleranceExamples(t: Tables, dev: map<string, Value>, stepOutputs: map<int, map<string, Value>>, step: int,
                          key: string)
    requires key in t.units && !IsPercent(t, key)
    ensures CheckKey(t, dev, stepOutputs, step, key, CNum(70.0), map[key := Num(70.4)], map[key := 0.5]) == Ok(true)
    ensures CheckKey(t, dev, stepOutputs, step, key, CNum(70.0), map[key := Num(70.6)], map[key := 0.5]) == Ok(false)
    ensures CheckKey(t, dev, stepOutputs, step, key, CNum(1.0), map[key := Tok("active")], map[key := 0.0]) == Ok(true)
  {
  }

  /** On a percent point a raw 45 reads as 0.45. */
  lemma PercentExample(t: Tables, dev: map<string, Value>, stepOutputs: map<int, map<string, Value>>, step: int,
                       key: string)
    requires IsPercent(t, key)
    ensures CheckKey(t, dev, stepOutputs, step, key, CNum(0.45), map[key := Num(45.0)], map[key := 0.0]) == Ok(true)
    ensures CheckKey(t, dev, stepOutputs, step, key, CNum(45.0), map[key := Num(45.0)], map[key := 1.0]) == Ok(false)
  {
  }
}
