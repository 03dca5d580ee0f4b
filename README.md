# guideline36 test runner — a Dafny model

The guideline36 runner drives a building controller through a scripted
test. The script is a spreadsheet with three tables:

- input points, written at the start of each step;
- a wait condition, which is a time budget and an optional wake clause;
- expected output points, compared with what the controller reports once
  the wait is over.

Each table has a row of acceptable bounds (row 0) and then one row per
step. The first step's outputs are recorded but not asserted. Input and
expected cells can hold expressions in a small language: `+ - * /`,
parentheses, point aliases and decimal literals. An expected cell can also
be "Any" or a comparison with the previous step's value (`>last`, `<=last`
and so on).

This project models `src/Test.py`, the `Test` class, in these modules:

- `Values`: shared types.
  - Device values, which are numbers or tokens such as `active`.
  - Script cells.
  - Expression symbols.
  - The errors the Python code raises.
  - The alias and units tables.
- `Text`: the Python string primitives the runner relies on, written over
  sequences: `find`, `rfind`, `split`, `replace`, `lower`, `strip`, and
  the substring `in` test.
- `Literal`: `float(token)` on decimal numerals.
- `Expression`: `evaluate_expression` and `get_value_from_expression` as
  functions.
  - The first operator of the list `+ - * /` that occurs splits the whole
    expression.
  - The parts are folded left to right.
  - A running result of 0 is falsy, so the next part replaces it instead
    of being combined with it.
  - Groups are reduced innermost first.
  - A group's value is spliced back as `str()` prints it, so a negative
    value brings its minus sign with it.
- `ExpressionLaws`: what that design implies, with worked examples:
  - no precedence;
  - the falsy zero;
  - errors on empty parts;
  - negative groups;
  - `2+3*4`, `(2+3)*4`, `(1+2) *3`, `5-5-3`.
- `Inputs`: `set_values`, in two parts.
  - How a cell is read: spaces removed, `=` expressions, and the
    on/off vocabulary.
  - How a row of cells is written to the device, in order.
- `Wait`: `test_conditions` over a supplied sequence of polls, each an
  elapsed time and a reading.
- `Assertion`: `assert_output`: "Any", the `last` comparisons, `=`
  expressions, numeric tolerance and percent scaling.
- `Sequencer`: `start_test` as a function over the steps, with what it
  records and where it stops.
  - `get_current_variable_values` is modelled here.
  - So is the `--reset` entry point.
- `Clock`: the `H:M:S` to seconds conversion of the condition table's
  `ClkTime` column.
- `Runner`: the `Test` object as a class.
  - Its fields are the device, `step_outputs` and `current_step`.
  - Its methods loop as the source does and change those fields in place.
  - Each method is proved equal to the matching function above.

The device, the clock and the controller's reaction are inputs to the
model.

- A step's wait is given as a sequence of polls (`Wait.Sample`).
- What the controller shows after the wait is given as a map
  (`Sequencer.StepEnv`).

The model proves the outcome of a run for every such world.

### Features the code does not have

The model follows what `src/Test.py` does. It has none of these features:

- **Ramp and periodic input generators.** A cell is written once per step.
- **Inline comparators on the wake clause** (`"<=45%"`). The wait always
  tests the scaled reading `>=` the condition value, and only when `or`
  is 1.
- **Logging a device read error during the wait and going on.** An error
  raises.
- **Reporting parser errors before a step starts.** An error surfaces when
  the cell is evaluated.

## Model

| member | source | states |
|---|---|---|
| Clock.ClkSeconds | src/Test.py:64-66 | a valid H:M:S time gives hour*3600+minute*60+second, below 86400, from which hour, minute and second are recovered by division and remainder |
| Clock.SecondsRoundTrip | src/Test.py:64-66 | converting a valid time to seconds and back gives the same time |
| Clock.ClockRoundTrip | src/Test.py:64-66 | every budget below one day is the seconds value of the time it converts to |
| Clock.ClkSecondsMonotone | src/Test.py:64-66 | a later time of day gives a strictly larger budget |
| Text.FirstIndex | src/Test.py:222-223 | `find`: None exactly when the element is absent; otherwise an index holding it with no earlier occurrence |
| Text.LastIndex | src/Test.py:224 | `rfind`: None exactly when absent; otherwise an index holding it with no later occurrence |
| Text.Split | src/Test.py:236 | `split` on one separator: at least one part, no part holds the separator, and when the separator occurs every part is shorter than the input |
| Text.SplitJoin | src/Test.py:236 | joining the parts of a split with the separator gives back the input |
| Text.ReplaceAllCountLt | src/Test.py:226 | replacing a pattern that occurs and holds x, by a replacement without x, strictly lowers the number of x |
| Text.ReplaceAllElems | src/Test.py:226 | `replace` introduces no element found in neither the input nor the replacement |
| Text.FindSub | src/Test.py:180 | the substring test: the index found is an occurrence with none before it; None means no occurrence at all |
| Text.StripSpaces | src/Test.py:112 | `replace(" ", "")`: no space is left, every other character keeps its count, and a string without spaces is unchanged |
| Text.StripSpacesAppend | src/Test.py:112 | removing spaces from a concatenation is removing them from each piece, so the characters left keep their order |
| Text.Lower | src/Test.py:118-121 | `lower()`: same length, each character lower-cased (ASCII) |
| Text.Trim | src/Test.py:259 | the whitespace `float()` skips (Python's `isspace` set): the result is no longer than the input and neither starts nor ends with whitespace |
| Text.TrimSlice | src/Test.py:259 | the result is the slice of the input between a whitespace-only prefix and a whitespace-only suffix, so with Trim's contract exactly the input with its leading and trailing whitespace removed |
| Text.ReplaceAll | src/Test.py:226 | `replace(pat, rep)`: replacing with a text of the pattern's length keeps the length, and the pattern itself becomes the replacement |
| Text.ReplaceAllAfter | src/Test.py:226 | every copy of the pattern is replaced, not only the first: when the pattern's last element occurs in it only at its end and not in a, "a pat b" becomes "a rep" followed by the replacement of b |
| Literal.ParseLiteral | src/Test.py:259 | `float(token)`: a parsed value is non-negative and comes from a non-blank token |
| Literal.ParseLiteralIff | src/Test.py:259 | `float(token)` succeeds exactly when the token without surrounding whitespace is a numeral: digits and at most one '.', with at least one digit |
| Literal.ParseNumeral | src/Test.py:259 | a numeral's value is non-negative, and the empty token never parses |
| Literal.ParseNumeralIff | src/Test.py:259 | a token parses exactly when it is a numeral |
| Literal.NumeralShape | src/Test.py:259 | splitting at the first '.' into two digit runs, not both empty, is the same as being a numeral |
| Literal.Fraction | src/Test.py:259 | the digits after the point are a value in [0, 1), and none give 0 |
| Literal.ParseDecimal | src/Test.py:259 | the decimal numeral of every natural number n parses as n |
| Literal.ParsePointed | src/Test.py:259 | "w.f" with digit runs w and f parses as w plus the fraction f |
| Literal.ParseDecimalPointZero | src/Test.py:226 | the text `str()` gives an integral value, "n.0", parses back as n |
| Literal.EmptyDoesNotParse | src/Test.py:259 | the empty token left by a leading or doubled operator raises |
| Literal.DecimalValue | src/Test.py:259 | the digits of a natural number's numeral read back as that number |
| Values.Scaled | src/Test.py:143-144 | a reading on a percent point is divided by 100; any other reading is unchanged |
| Expression.FirstOperator | src/Test.py:231-236 | the operator chosen: '+' exactly when it occurs, each later one exactly when it occurs and no earlier one does; none exactly when operator-free |
| Expression.Apply | src/Test.py:240-247 | only division by zero raises, and it raises DivisionByZero |
| Expression.FoldStep | src/Test.py:239-249 | a running result of None or 0 is replaced by the part's value; a true one is combined with it |
| Expression.Lookup | src/Test.py:257 | a point's value is returned exactly when the device has the point and it holds a number |
| Expression.Bare | src/Test.py:251-259 | a substituted group value with only whitespace around it is that value; an alias token is its point's live value; any other text token succeeds exactly when it parses as a literal, with that value; a value spliced into text raises `SpliceToken` |
| Expression.SpacedValueIff | src/Test.py:259 | a token holds a substituted value in the sense of Bare exactly when it is whitespace, one value and whitespace, and then that value is the one found |
| Expression.FlatEval | src/Test.py:229-259 | a flat evaluation raises only evaluation errors (bad literal, spliced token, unknown or non-numeric point, division by zero) |
| Expression.FoldParts | src/Test.py:237-250 | the fold over the parts raises only evaluation errors |
| Expression.NextGroup | src/Test.py:222-224 | the group reduced next is the first ')' and the nearest '(' before it, with no parenthesis inside; None exactly when that ')' has no '(' before it |
| Expression.Spliced | src/Test.py:226 | what a group's value becomes in the text: it holds no parenthesis, ends with the value's magnitude, and holds a '-' exactly when the value is negative |
| Expression.GroupShrinks | src/Test.py:222-226 | replacing a group reduces the number of ')', so the loop ends |
| Expression.Reduce | src/Test.py:222-226 | the reduced expression holds no ')'; an error is an evaluation error or an unmatched ')' |
| Expression.Eval | src/Test.py:220-227 | without ')' the expression is evaluated flat; an error is an evaluation error or an unmatched ')' |
| Expression.BalancedRound | src/Test.py:222-226 | one round on a balanced expression keeps it balanced and removes a ')' |
| Expression.BalancedHasGroup | src/Test.py:222-224 | a balanced expression that still has a ')' has a group to reduce |
| Expression.ReduceRound | src/Test.py:225-226 | proof step, one unfolding of the definition: a group whose inside has a value is replaced by it and the loop goes on |
| Expression.ReduceRoundFails | src/Test.py:225 | proof step, one unfolding of the definition: a group whose inside raises ends the evaluation with that error |
| Expression.BalancedReduces | src/Test.py:222-226 | reducing a balanced expression never meets an unmatched ')' and leaves no parentheses at all |
| Expression.BalancedEval | src/Test.py:220-227 | a balanced expression fails only as the flat evaluator does |
| ExpressionLaws.NumeralEval | src/Test.py:259 | a numeral that is not an alias evaluates to its number |
| ExpressionLaws.SplitAround | src/Test.py:236 | splitting "a d b", where a has no d, gives a followed by the parts of b |
| ExpressionLaws.FlatEvalSplit | src/Test.py:233-250 | proof step, one unfolding of the definition: with an operator the expression is the fold of its split parts, each shorter than the expression |
| ExpressionLaws.FlatEvalBare | src/Test.py:251-259 | proof step, one unfolding of the definition: without an operator the expression is a bare token |
| ExpressionLaws.FoldPartsStep | src/Test.py:237-249 | proof step, one unfolding of the definition: a part that has a value, combined with the running result, becomes the running result for the parts after it |
| ExpressionLaws.FoldPartsFails | src/Test.py:238 | proof step, one unfolding of the definition: a part that raises ends the fold with its error |
| ExpressionLaws.FoldPartsStepFails | src/Test.py:246-247 | proof step, one unfolding of the definition: a combination that raises ends the fold |
| ExpressionLaws.FoldTwo | src/Test.py:237-250 | a two-part split gives the fold step of its two values |
| ExpressionLaws.FoldThree | src/Test.py:237-250 | a three-part split folds its values from the left |
| ExpressionLaws.TwoParts | src/Test.py:233-250 | "x op y" with no op in x or y is the fold step of their values |
| ExpressionLaws.ProductSplit | src/Test.py:244-249 | "y*z" is the product, except that y = 0 gives z |
| ExpressionLaws.SumSplit | src/Test.py:240-241 | "x+p" is the sum |
| ExpressionLaws.NoPrecedence | src/Test.py:233-250 | "x+y*z" splits on '+' first: x plus the falsy-rule product of y and z |
| ExpressionLaws.ProductThenSum | src/Test.py:233-250 | "x*y+z" is the falsy-rule product of x and y, plus z |
| ExpressionLaws.ThreeParts | src/Test.py:233-250 | "x op y op z" over operator-free parts folds their three values from the left |
| ExpressionLaws.TwoPlusThreeTimesFour | src/Test.py:229-259 | "2+3*4" evaluates to 14 |
| ExpressionLaws.ZeroTimesFive | src/Test.py:239-249 | "0*5" evaluates to 5, because the falsy 0 is replaced |
| ExpressionLaws.TwoTimesThreePlusFour | src/Test.py:229-259 | "2*3+4" evaluates to 10 |
| ExpressionLaws.FiveMinusFiveMinusThree | src/Test.py:239-249 | "5-5-3" evaluates to 3: 5-5 is a falsy 0, which 3 replaces |
| ExpressionLaws.LeadingGroup | src/Test.py:220-227 | a leading group "(g)rest" is reduced to its spliced value and the rest is evaluated flat |
| ExpressionLaws.GroupTimesFour | src/Test.py:220-227 | "(2+3)*4" evaluates to 20 |
| ExpressionLaws.SpacedGroupTimesThree | src/Test.py:220-259 | "(1+2) *3" evaluates to 9: the space left after the spliced "3.0" is skipped by `float()` |
| ExpressionLaws.TwoCopiesReplaced | src/Test.py:226 | one round replaces both copies of a group: "(2)+(2)" becomes 2.0 + 2.0 |
| ExpressionLaws.NegativeGroupFails | src/Test.py:226 | "(1-2)*3" raises: the spliced "-1.0" puts an empty part before the '-' |
| ExpressionLaws.LeadingOperatorFails | src/Test.py:236-259 | an expression that starts with an operator always raises, never gives 0 |
| Inputs.Classify | src/Test.py:110-126 | a number is written as it is; an expression or token written from a string holds no space |
| Inputs.Resolve | src/Test.py:114-123 | a value is written as it is; an expression succeeds exactly when its evaluation does, with that number; errors are evaluation errors or an unmatched ')' |
| Inputs.SetValuesSpec | src/Test.py:106-127 | without an error every earlier point and every point of the row is on the device; an error is an evaluation error or an unmatched ')'; a partial write on error is SetValuesFailsAt |
| Inputs.OnlyKeysChange | src/Test.py:106-127 | a point outside the row is neither changed nor added, whether the loop completes or stops |
| Inputs.SetValuesStep | src/Test.py:107-127 | proof step, one unfolding of the definition: a cell that resolves is written, and the loop goes on from the device with that write |
| Inputs.LiteralRow | src/Test.py:106-127 | a row without expressions and without repeated keys never fails and writes exactly its own values over the device |
| Inputs.LiteralRowIdempotent | src/Test.py:106-127 | applying such a row twice is applying it once |
| Inputs.StripSpacesIdempotent | src/Test.py:112 | removing spaces twice is removing them once |
| Inputs.ClassifyIgnoresSpaces | src/Test.py:112 | a string cell is read as its space-free form |
| Inputs.Vocabulary | src/Test.py:118-121 | open/present/on in any case and with any spaces write "active"; closed/absent/off write "inactive" |
| Inputs.Verbatim | src/Test.py:122-123 | any other string is written without its spaces and otherwise unchanged |
| Inputs.FormulaCell | src/Test.py:114-116 | an '=' cell writes the number its expression evaluates to, or fails with the expression's error and writes nothing |
| Inputs.SetValuesFails | src/Test.py:107-116 | a cell whose expression raises ends the loop with that error: nothing of it is written |
| Inputs.SetValuesAppend | src/Test.py:107-127 | the loop over two runs of cells is the loop over the first and then, unless it raised, the loop over the second on the device the first left |
| Inputs.SetValuesFailsAt | src/Test.py:107-127 | when cell k raises after the cells before it were written, the writes of those cells stay, no later cell is written, and the error is reported |
| Wait.WakeCheck | src/Test.py:137-146 | raises exactly when the point has no units entry or the reading is a token; otherwise true exactly when the scaled reading reaches the threshold |
| Wait.WaitFrom | src/Test.py:133-157 | a wake or time-out happens at a sample that was supplied; errors are a missing units entry or a token reading |
| Wait.WaitSpec | src/Test.py:133-157 | the wait from the first poll: a wake or time-out is at a supplied poll, no polls leave it waiting, and a first poll past the budget times out at once |
| Wait.WokeIff | src/Test.py:133-148 | the wait wakes at sample k exactly when the clause is on, k is within the budget, its reading reaches the threshold and every earlier sample kept waiting |
| Wait.TimedOutIff | src/Test.py:133-157 | the wait times out at sample k exactly when k is past the budget and every earlier sample kept waiting |
| Wait.NoClauseRunsFullBudget | src/Test.py:133-137 | with `or` not 1 the wait never raises or wakes, and every sample before the time-out is within the budget |
| Wait.TimedOutSplitsBudget | src/Test.py:133 | on a clock that never goes back, the samples within the budget are exactly those before the time-out |
| Wait.ThirtySeconds | src/Test.py:133-157 | a 30 s budget with the clause off, polled every 10 s, times out at the 40 s poll |
| Wait.WakesOnPercent | src/Test.py:142-148 | a raw 40 on a percent point reads 0.40 and wakes a threshold of 0.4 |
| Assertion.Abs | src/Test.py:203 | the absolute value: non-negative and equal to x or -x |
| Assertion.Within | src/Test.py:203-207 | the tolerance test: passes exactly when the expected value lies in [actual - bound, actual + bound] |
| Assertion.Normalised | src/Test.py:171-175 | the token "inactive" counts as 0 and every other token as 1; a number is unchanged |
| Assertion.LastCheck | src/Test.py:180-198 | a missing previous step raises exactly MissingStep, a missing key on a recorded step raises MissingKey; with the previous value on record it raises only for an ordering against a token, and passes exactly when an ordering holds against a number, or "==" finds the same number |
| Assertion.CheckKey | src/Test.py:166-216 | a column missing from the outputs or the bounds raises; a missing-step error only when the previous step is not on record |
| Assertion.AssertOutput | src/Test.py:165-218 | a missing-step error only when the previous step is not on record |
| Assertion.AllPass | src/Test.py:165-218 | True exactly when every column passes |
| Assertion.FirstFailure | src/Test.py:165-218 | False exactly when some column fails and all columns before it pass |
| Assertion.AnyPasses | src/Test.py:177-178 | "Any" passes whatever was reported |
| Assertion.LastAfterOperator | src/Test.py:180-181 | "last" is found right after an operator that holds no 'l' |
| Assertion.LastBranch | src/Test.py:180-198 | "<op>last" for the five operators is the last-step comparison of the normalised actual value |
| Assertion.LastAgainstNumber | src/Test.py:185-192 | against a number on record, an ordering operator passes exactly when it holds |
| Assertion.GreaterThanLastExample | src/Test.py:185-186 | ">last" with 5 on record passes for 6 and fails for 5 |
| Assertion.LastUnknownOperator | src/Test.py:195-198 | an operator other than the five fails |
| Assertion.FormulaBranch | src/Test.py:199-207 | "=expr" fails exactly when the expression's value and the unscaled actual value differ by more than the bound |
| Assertion.FormulaRaises | src/Test.py:199-201 | an "=expr" whose expression raises makes the check raise |
| Assertion.NumericBranch | src/Test.py:209-216 | a numeric expected value fails exactly when it differs from the actual value (divided by 100 on a percent point) by more than the bound |
| Assertion.BoundaryPasses | src/Test.py:213 | a difference equal to the bound passes |
| Assertion.OtherStringPasses | src/Test.py:179-199 | any other string is not checked |
| Assertion.ToleranceExamples | src/Test.py:209-216 | 70 ± 0.5 accepts 70.4 and rejects 70.6; an "active" token counts as 1 |
| Assertion.PercentExample | src/Test.py:210-216 | on a percent point a raw 45 matches 0.45 and not 45 |
| Sequencer.Names | src/Test.py:89 | the output column names, in order |
| Sequencer.CaptureFrom | src/Test.py:160-163 | reading on from name k: succeeds exactly when the remaining names are all on the device, giving just the names read plus the ones before, each with its device value |
| Sequencer.Capture | src/Test.py:159-163 | succeeds exactly when every name is on the device, with exactly those names and their device values; otherwise reports an absent name |
| Sequencer.RunStep | src/Test.py:76-102 | one step records exactly itself on top of earlier records; a halt is at this step and is not a pass; a failure only after step 1; a missing-step error only when the previous step is not on record; its outcome against assert_output is StepOutcome, its device RunStepDevice and HaltDevice |
| Sequencer.RunStepRecords | src/Test.py:88-90 | a step that goes on records, as step_outputs[i], exactly the values of its output columns read from the device the wait left |
| Sequencer.HaltRecords | src/Test.py:88-97 | a step that halts after recording has recorded exactly the values read from the device it halts with |
| Sequencer.FirstStepUnasserted | src/Test.py:92-99 | step 1 is never asserted: scripts whose step 1 differs only in what its expected cells say run that step identically |
| Sequencer.StepOutcome | src/Test.py:85-99 | for a step whose writes, wait and reading succeed: it goes on, with the device its writes and the wait left and its reading recorded, exactly when it is step 1 or assert_output returns True; it fails exactly when it is a later step and assert_output returns False; an error of assert_output aborts it |
| Sequencer.StepVerdictOutcome | src/Test.py:85-99 | every step goes on exactly when it reaches assert_output and is step 1 or is asserted True, and fails exactly when it is a later step asserted False |
| Sequencer.RunStepDevice | src/Test.py:85-89 | a step that goes on leaves the device its input writes left, with what the controller shows after the wait laid over it |
| Sequencer.HaltDevice | src/Test.py:85-97 | a step that halts leaves the device its input writes left, or that device with what the controller shows after the wait laid over it |
| Sequencer.Trace | src/Test.py:76-99 | the states the steps from i start in, while the run goes on: empty exactly past the last step, first entry the state step i starts in, never past the last step |
| Sequencer.TraceUnfold | src/Test.py:76-99 | proof step, one unfolding of the definition: the entry of step i, then the trace of the next step when step i goes on |
| Sequencer.TraceHead | src/Test.py:76-99 | proof step: the first entry holds step i's verdict, and there is a second entry exactly when step i goes on and is not the last |
| Sequencer.TraceVerdictAt | src/Test.py:76-99 | entry k is step i + k, holding that step's assert_output verdict from the state it starts in |
| Sequencer.TraceNextAt | src/Test.py:76-102 | the step of entry k, run from its state, goes on to the state of entry k + 1 |
| Sequencer.PassedAsserted | src/Test.py:76-104 | a run passes exactly when it reaches the last step and every step reaches assert_output, with every step from 2 on asserted True |
| Sequencer.FailedAsserted | src/Test.py:76-99 | a failed run fails at the last step it reached, a step 2 or later whose assert_output returned False, after every earlier step passed |
| Sequencer.RunSpecAsserted | src/Test.py:74-104 | `start_test` from a fresh runner passes exactly when steps 1 to n-1 all reach assert_output and steps 2 to n-1 are all asserted True, and fails only at a step asserted False after all earlier ones passed |
| Sequencer.RunFrom | src/Test.py:76-104 | the step loop from step i: a passed run's current_step is the last step (or i - 1 when no step is left); pass and failure against assert_output are PassedAsserted and FailedAsserted |
| Sequencer.RunFromStep | src/Test.py:76-102 | proof step, one unfolding of the definition: a step that halts ends the run; one that goes on hands its state to the next step |
| Sequencer.RunsToEnd | src/Test.py:76-104 | proof step, one unfolding of the definition: past the last step the run has passed with the state it has |
| Sequencer.RunSpec | src/Test.py:74-104 | `start_test` from a fresh runner: a passed run's current_step is the last step, and a failure is at step 2 or later; its outcome against assert_output is RunSpecAsserted |
| Sequencer.NeverFailsFirstStep | src/Test.py:92-99 | a failed run failed at step 2 or later |
| Sequencer.EndsAtRunStep | src/Test.py:76-97 | a run that does not pass stops at a step it ran, current_step is that step, and nothing later is recorded |
| Sequencer.PassedRanAll | src/Test.py:76-104 | a passed run's current_step is the last step |
| Sequencer.PassedRecordsAll | src/Test.py:89-90 | a passed run keeps the earlier records and records every step |
| Sequencer.FailedRecordsUpTo | src/Test.py:89-97 | a failed run keeps the earlier records and records every step up to the failing one |
| Sequencer.RecordsOnlySteps | src/Test.py:90 | only the script's steps are ever recorded |
| Sequencer.FreshRecord | src/Test.py:74-104 | from a fresh runner, a passed run records exactly steps 1 to n-1 and a failed one exactly 1 to the failing step |
| Sequencer.NeverMissingStep | src/Test.py:90-94 | the previous step is always on record when a step is asserted, so the `last` lookup never misses a step |
| Sequencer.Reset | src/Test.py:271-273 | without a first step row it raises and changes nothing; otherwise, after success, every point of that row is on the device |
| Sequencer.ResetIdempotent | src/Test.py:271-273 | resetting twice with a literal row is resetting once |
| Runner.TestRun.constructor | src/Test.py:49-50 | a fresh runner: device as given, nothing recorded, no current step |
| Runner.TestRun.FindOperator | src/Test.py:231-236 | the loop over + - * / finds the first operator of the list that occurs |
| Runner.TestRun.GetValueFromExpression | src/Test.py:229-259 | the recursive evaluator returns the flat evaluation of its input |
| Runner.TestRun.FoldSplit | src/Test.py:237-250 | the loop over the parts returns the fold of the parts |
| Runner.TestRun.EvaluateExpression | src/Test.py:220-227 | the parenthesis loop returns the evaluation of the expression |
| Runner.TestRun.SetValues | src/Test.py:106-127 | the loop leaves the device and the error that `set_values` gives, and the record and current step unchanged |
| Runner.TestRun.ResetPoints | src/Test.py:271-273 | the reset leaves the device and the error that `Reset` gives |
| Runner.TestRun.TestConditions | src/Test.py:130-157 | the polling loop ends as the wait specification says |
| Runner.TestRun.GetCurrentVariableValues | src/Test.py:159-163 | the reading loop returns the captured values of the names |
| Runner.TestRun.AssertOutputs | src/Test.py:165-218 | the column loop returns the assertion's result for the current step |
| Runner.TestRun.RunOneStep | src/Test.py:77-102 | the loop body sets current_step to i, and either stops with the run's final state and outcome or leaves the state the run goes on from |
| Runner.TestRun.StartTest | src/Test.py:74-104 | the runner ends with the device, record, current step and outcome of the run specification |

## Left out

- Device I/O. The BACnet device, `read_points`, the point-property merge
  and `reset_device` (src/Test.py:30-40, 69-72) are left out.
  - Device values are a map.
  - What the controller shows after a step's wait is supplied per step
    (`StepEnv.observed`).
  - src/Device.py is not part of this model.
- The loaders. Reading the YAML configuration, the JSON point map and the
  spreadsheet (src/Test.py:9-28, 42-62) is not modelled.
  - The model takes the tables as `Script` rows and `Tables` maps that are
    already parsed.
  - Only the `ClkTime` conversion (src/Test.py:64-66) is modelled, as
    `Clock`.
  - Translating condition-variable aliases (src/Test.py:63) is not
    modelled: `Condition.variable` is already a device point name.
- The clock.
  - `time.time()` becomes the `elapsed` field of each supplied sample.
  - The optional `sleep` is left out.
  - The 60-second `read_points` print inside the wait loop is left out.
- Progress messages. Every `print` is left out.
- Runs that never end.
  - The real wait polls until the clock passes the budget.
  - The model has finitely many polls and step environments, so it adds
    two outcomes for when they run out: `Exhausted` and `Stalled`. These
    belong to the model of the world, not to the runner.
- Floating point.
  - Values are mathematical reals, so there is no rounding, infinity or NaN.
  - NaN cells (empty spreadsheet cells) are not modelled.
- Literal.ParseLiteral: accepts only ASCII decimal numerals with at most
  one point. It does not accept exponents, `inf`, `nan`, underscores or
  the non-ASCII decimal digits `float()` also reads. A sign never reaches
  `float()`, because the split on `+` and `-` comes first.
- Text.Lower: lower-cases ASCII letters only. That is exact for the on/off
  words it is compared with.
- Expression.Spliced: a group's value is spliced back as a number symbol,
  preceded by '-' when the value is negative.
  - When the digits `str()` prints would continue a neighbouring token, as
    in `2(3)`, Python reads one longer token. The model raises
    `SpliceToken` instead.
  - Values `str()` prints in exponent form, such as `1e-05`, would bring a
    '-' or '+' into the text. This is not modelled.
- Expression.Reduce: an unmatched ')' raises `UnmatchedClose`. Python would
  slice with index -1 and go on with a garbled expression.
  `Expression.BalancedReduces` shows the case never arises for balanced
  input.
- Expression.Lookup: every read of a point holding a token such as
  `active` raises `NotNumeric`. Python goes further in three cases:
  - a bare alias returns the token itself (src/Test.py:257), so an input
    cell `=X` writes `active` (src/Test.py:114-127);
  - a token after a falsy running result replaces it (src/Test.py:248-249),
    so `0+X` also gives `active`;
  - any other arithmetic on the token (`X+1`, `2*X`) raises a TypeError,
    and a token spliced back from a group, as in `(X)`, fails `float()`.
  The model raises in all of them.
- Assertion.CheckKey: a failing check returns False (`Ok(false)`), as the
  code intends. Two of the source's failure messages would raise a
  TypeError first, because their `%f` is given a string:
  - the `last` message (src/Test.py:196-197), when the previous value is a
    token;
  - the `=` message (src/Test.py:204-206), always, because it prints the
    expected cell's text and not the evaluated value.
- Sequencer.RunStep: the input, condition and output tables are one `Step`
  row per step, all of the same length. A shorter condition or output
  table would raise an IndexError.
