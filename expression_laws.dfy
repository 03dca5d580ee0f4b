/** What the evaluator's string-splitting design implies: no operator
    precedence, a falsy running result, errors on empty parts, and the
    worked examples of the script language. */
module ExpressionLaws {
  import opened Values
  import opened Text
  import opened Literal
  import opened Expression

  lemma {:induction false} ToSymsAppend(a: string, b: string)
    ensures ToSyms(a + b) == ToSyms(a) + ToSyms(b)
  {
    if a != [] {
      assert (a + b)[1..] == a[1..] + b;
      ToSymsAppend(a[1..], b);
    } else {
      assert a + b == b;
    }
  }

  lemma DigitSymbols(s: string)
    requires AllDigits(s)
    ensures forall c :: C(c) in ToSyms(s) ==> IsDigit(c)
  {
    forall c | C(c) in ToSyms(s) ensures IsDigit(c) {
      var k :| 0 <= k < |s| && ToSyms(s)[k] == C(c);
    }
  }

  /** A numeral that is not also a point alias evaluates to its number. */
  lemma NumeralEval(t: Tables, dev: map<string, Value>, n: nat)
    requires NatToDecimal(n) !in t.aliases
    ensures FlatEval(t, dev, ToSyms(NatToDecimal(n))) == Ok(n as real)
  {
    var s := NatToDecimal(n);
    DigitSymbols(s);
    assert FirstOperator(ToSyms(s)) == None;
    AsTextToSyms(s);
    ParseDecimal(n);
  }

  lemma {:induction false} FirstIndexAfter<T>(a: seq<T>, d: T, b: seq<T>)
    requires d !in a
    ensures FirstIndex(a + [d] + b, d) == Some(|a|)
  {
    if a != [] {
      assert (a + [d] + b)[1..] == a[1..] + [d] + b;
      FirstIndexAfter(a[1..], d, b);
    } else {
      assert a + [d] + b == [d] + b;
    }
  }

  /** Splitting at a separator that the left part does not hold. */
  lemma SplitAround<T>(a: seq<T>, d: T, b: seq<T>)
    requires d !in a
    ensures Split(a + [d] + b, d) == [a] + Split(b, d)
  {
    var s := a + [d] + b;
    FirstIndexAfter(a, d, b);
    assert s[..|a|] == a;
    assert s[|a| + 1..] == b;
  }

  /** A flat expression with an operator is the fold of its parts. */
  lemma FlatEvalSplit(t: Tables, dev: map<string, Value>, e: seq<Sym>, op: char)
    requires FirstOperator(e) == Some(op)
    ensures forall i :: 0 <= i < |Split(e, C(op))| ==> |Split(e, C(op))[i]| < |e|
    ensures FlatEval(t, dev, e) == FoldParts(t, dev, op, Split(e, C(op)), None, |e|)
  {
  }

  /** Without an operator the expression is a bare token. */
  lemma FlatEvalBare(t: Tables, dev: map<string, Value>, e: seq<Sym>)
    requires FirstOperator(e).None?
    ensures FlatEval(t, dev, e) == Bare(t, dev, e)
  {
  }

  /** One part of the fold: its value, combined with the running result,
      becomes the running result for the parts after it. */
  lemma FoldPartsStep(t: Tables, dev: map<string, Value>, op: char, parts: seq<seq<Sym>>, j: nat,
                      acc: Option<real>, bound: nat, v: real, a: real)
    requires j < |parts| && forall i :: 0 <= i < |parts| ==> |parts[i]| < bound
    requires FlatEval(t, dev, parts[j]) == Ok(v) && FoldStep(op, acc, v) == Ok(a)
    ensures FoldParts(t, dev, op, parts[j..], acc, bound) == FoldParts(t, dev, op, parts[j + 1..], Some(a), bound)
  {
    assert parts[j..][0] == parts[j] && parts[j..][1..] == parts[j + 1..];
  }

  /** A part that fails ends the fold with its error. */
  lemma FoldPartsFails(t: Tables, dev: map<string, Value>, op: char, parts: seq<seq<Sym>>, j: nat,
                       acc: Option<real>, bound: nat)
    requires j < |parts| && forall i :: 0 <= i < |parts| ==> |parts[i]| < bound
    requires FlatEval(t, dev, parts[j]).Err?
    ensures FoldParts(t, dev, op, parts[j..], acc, bound) == FlatEval(t, dev, parts[j])
  {
    assert parts[j..][0] == parts[j];
  }

  /** A combination that fails, a division by zero, ends the fold. */
  lemma FoldPartsStepFails(t: Tables, dev: map<string, Value>, op: char, parts: seq<seq<Sym>>, j: nat,
                           acc: Option<real>, bound: nat, v: real)
    requires j < |parts| && forall i :: 0 <= i < |parts| ==> |parts[i]| < bound
    requires FlatEval(t, dev, parts[j]) == Ok(v) && FoldStep(op, acc, v).Err?
    ensures FoldParts(t, dev, op, parts[j..], acc, bound) == FoldStep(op, acc, v)
  {
    assert parts[j..][0] == parts[j];
  }

  /** A two-part split folds its two values: a true running result is
      combined, a falsy one is replaced. */
  lemma FoldTwo(t: Tables, dev: map<string, Value>, op: char, e: seq<Sym>, x: seq<Sym>, y: seq<Sym>, u: real, w: real)
    requires FirstOperator(e) == Some(op) && Split(e, C(op)) == [x, y]
    requires FlatEval(t, dev, x) == Ok(u) && FlatEval(t, dev, y) == Ok(w)
    ensures FlatEval(t, dev, e) == FoldStep(op, Some(u), w)
  {
    var parts := Split(e, C(op));
    FlatEvalSplit(t, dev, e, op);
    assert parts[0..] == parts;
    FoldPartsStep(t, dev, op, parts, 0, None, |e|, u, u);
    match FoldStep(op, Some(u), w)
    case Err(_) =>
      FoldPartsStepFails(t, dev, op, parts, 1, Some(u), |e|, w);
    case Ok(b) =>
      FoldPartsStep(t, dev, op, parts, 1, Some(u), |e|, w, b);
  }

  /** A three-part split folds its values from the left. */
  lemma FoldThree(t: Tables, dev: map<string, Value>, op: char, e: seq<Sym>, x: seq<Sym>, y: seq<Sym>, z: seq<Sym>,
                  u: real, v: real, w: real, a: real, b: real)
    requires FirstOperator(e) == Some(op) && Split(e, C(op)) == [x, y, z]
    requires FlatEval(t, dev, x) == Ok(u) && FlatEval(t, dev, y) == Ok(v) && FlatEval(t, dev, z) == Ok(w)
    requires FoldStep(op, Some(u), v) == Ok(a) && FoldStep(op, Some(a), w) == Ok(b)
    ensures FlatEval(t, dev, e) == Ok(b)
  {
    var parts := Split(e, C(op));
    FlatEvalSplit(t, dev, e, op);
    assert parts[0..] == parts && parts[3..] == [];
    FoldPartsStep(t, dev, op, parts, 0, None, |e|, u, u);
    FoldPartsStep(t, dev, op, parts, 1, Some(u), |e|, v, a);
    FoldPartsStep(t, dev, op, parts, 2, Some(a), |e|, w, b);
    assert FoldParts(t, dev, op, parts[3..], Some(b), |e|) == Ok(b);
  }

  /** "x op y" where op is the split operator and neither side holds it. */
  lemma TwoParts(t: Tables, dev: map<string, Value>, op: char, x: seq<Sym>, y: seq<Sym>, u: real, w: real)
    requires FirstOperator(x + [C(op)] + y) == Some(op)
    requires C(op) !in x && C(op) !in y
    requires FlatEval(t, dev, x) == Ok(u) && FlatEval(t, dev, y) == Ok(w)
    ensures FlatEval(t, dev, x + [C(op)] + y) == FoldStep(op, Some(u), w)
  {
    SplitAround(x, C(op), y);
    FoldTwo(t, dev, op, x + [C(op)] + y, x, y, u, w);
  }

  /** The product as the fold computes it: a left factor of 0 is falsy and
      is replaced by the right factor. */
  function FalsyProduct(v: real, w: real): real {
    if v == 0.0 then w else v * w
  }

  /** "y*z" for operator-free y and z: the product, except that y = 0 is
      falsy and gives z. */
  lemma ProductSplit(t: Tables, dev: map<string, Value>, y: seq<Sym>, z: seq<Sym>, v: real, w: real)
    requires FirstOperator(y) == None && FirstOperator(z) == None
    requires FlatEval(t, dev, y) == Ok(v) && FlatEval(t, dev, z) == Ok(w)
    ensures FlatEval(t, dev, y + [C('*')] + z) == Ok(FalsyProduct(v, w))
    ensures C('+') !in y + [C('*')] + z
  {
    assert FirstOperator(y + [C('*')] + z) == Some('*');
    TwoParts(t, dev, '*', y, z, v, w);
  }

  /** "x+p" for operator-free x and a p without '+': the sum (a falsy 0
      on the left is replaced by p, which is the same number). */
  lemma SumSplit(t: Tables, dev: map<string, Value>, x: seq<Sym>, p: seq<Sym>, u: real, q: real)
    requires FirstOperator(x) == None && C('+') !in p
    requires FlatEval(t, dev, x) == Ok(u) && FlatEval(t, dev, p) == Ok(q)
    ensures FlatEval(t, dev, x + [C('+')] + p) == Ok(u + q)
  {
    assert FirstOperator(x + [C('+')] + p) == Some('+');
    TwoParts(t, dev, '+', x, p, u, q);
  }

  /** No precedence: "x+y*z" splits on '+' first, and the product keeps
      the falsy-accumulator rule, so y = 0 makes it x+z rather than x. */
  lemma NoPrecedence(t: Tables, dev: map<string, Value>, x: seq<Sym>, y: seq<Sym>, z: seq<Sym>, u: real, v: real, w: real)
    requires FirstOperator(x) == None && FirstOperator(y) == None && FirstOperator(z) == None
    requires FlatEval(t, dev, x) == Ok(u) && FlatEval(t, dev, y) == Ok(v) && FlatEval(t, dev, z) == Ok(w)
    ensures FlatEval(t, dev, x + [C('+')] + (y + [C('*')] + z)) == Ok(u + FalsyProduct(v, w))
  {
    var p := y + [C('*')] + z;
    ProductSplit(t, dev, y, z, v, w);
    assert FlatEval(t, dev, p) == Ok(FalsyProduct(v, w)) && C('+') !in p;
    SumSplit(t, dev, x, p, u, FalsyProduct(v, w));
  }

  /** "x*y+z": the '+' split comes first, so the product is the left part. */
  lemma ProductThenSum(t: Tables, dev: map<string, Value>, x: seq<Sym>, y: seq<Sym>, z: seq<Sym>, u: real, v: real, w: real)
    requires FirstOperator(x) == None && FirstOperator(y) == None && FirstOperator(z) == None
    requires FlatEval(t, dev, x) == Ok(u) && FlatEval(t, dev, y) == Ok(v) && FlatEval(t, dev, z) == Ok(w)
    ensures FlatEval(t, dev, x + [C('*')] + y + [C('+')] + z) == Ok(FalsyProduct(u, v) + w)
  {
    var p := x + [C('*')] + y;
    ProductSplit(t, dev, x, y, u, v);
    assert C('+') !in p;
    assert FirstOperator(p + [C('+')] + z) == Some('+');
    TwoParts(t, dev, '+', p, z, FalsyProduct(u, v), w);
  }

  /** The one-symbol token of a decimal digit. */
  function Digit(n: nat): (e: seq<Sym>)
    requires n < 10
    ensures e == ToSyms(NatToDecimal(n))
  {
    [C('0' + n as char)]
  }

  /** A digit that is not an alias evaluates to its value; it holds no
      operator and no parenthesis. */
  lemma Numeral(t: Tables, dev: map<string, Value>, n: nat)
    requires n < 10 && NatToDecimal(n) !in t.aliases
    ensures FlatEval(t, dev, Digit(n)) == Ok(n as real)
    ensures FirstOperator(Digit(n)) == None && ParenFree(Digit(n))
  {
    NumeralEval(t, dev, n);
  }

  /** The worked example of the script language: 2+3*4 is 14. */
  lemma TwoPlusThreeTimesFour(t: Tables, dev: map<string, Value>)
    requires "2" !in t.aliases && "3" !in t.aliases && "4" !in t.aliases
    ensures FlatEval(t, dev, ToSyms("2+3*4")) == Ok(14.0)
  {
    SumOfProductText();
    SumOfProductValue(t, dev, Digit(2), Digit(3), Digit(4));
  }

  /** The digits are parameters, so that the solver does not evaluate the
      literal expression symbol by symbol. */
  lemma SumOfProductValue(t: Tables, dev: map<string, Value>, x: seq<Sym>, y: seq<Sym>, z: seq<Sym>)
    requires "2" !in t.aliases && "3" !in t.aliases && "4" !in t.aliases
    requires x == Digit(2) && y == Digit(3) && z == Digit(4)
    ensures FlatEval(t, dev, x + [C('+')] + (y + [C('*')] + z)) == Ok(14.0)
  {
    assert NatToDecimal(2) == "2" && NatToDecimal(3) == "3" && NatToDecimal(4) == "4";
    Numeral(t, dev, 2); Numeral(t, dev, 3); Numeral(t, dev, 4);
    NoPrecedence(t, dev, x, y, z, 2.0, 3.0, 4.0);
    assert FalsyProduct(3.0, 4.0) == 12.0;
  }

  /** A running result of 0 is replaced: 0*5 is 5. */
  lemma ZeroTimesFive(t: Tables, dev: map<string, Value>)
    requires "0" !in t.aliases && "5" !in t.aliases
    ensures FlatEval(t, dev, ToSyms("0*5")) == Ok(5.0)
  {
    ProductText();
    ProductValue(t, dev, Digit(0), Digit(5));
  }

  lemma ProductValue(t: Tables, dev: map<string, Value>, x: seq<Sym>, y: seq<Sym>)
    requires "0" !in t.aliases && "5" !in t.aliases
    requires x == Digit(0) && y == Digit(5)
    ensures FlatEval(t, dev, x + [C('*')] + y) == Ok(5.0)
  {
    assert NatToDecimal(0) == "0" && NatToDecimal(5) == "5";
    Numeral(t, dev, 0); Numeral(t, dev, 5);
    ProductSplit(t, dev, x, y, 0.0, 5.0);
    assert FalsyProduct(0.0, 5.0) == 5.0;
  }

  /** 2*3+4 splits on '+' into 2*3 and 4: the result is 10. */
  lemma TwoTimesThreePlusFour(t: Tables, dev: map<string, Value>)
    requires "2" !in t.aliases && "3" !in t.aliases && "4" !in t.aliases
    ensures FlatEval(t, dev, ToSyms("2*3+4")) == Ok(10.0)
  {
    ProductThenSumText();
    ProductThenSumValue(t, dev, Digit(2), Digit(3), Digit(4));
  }

  lemma ProductThenSumValue(t: Tables, dev: map<string, Value>, x: seq<Sym>, y: seq<Sym>, z: seq<Sym>)
    requires "2" !in t.aliases && "3" !in t.aliases && "4" !in t.aliases
    requires x == Digit(2) && y == Digit(3) && z == Digit(4)
    ensures FlatEval(t, dev, x + [C('*')] + y + [C('+')] + z) == Ok(10.0)
  {
    assert NatToDecimal(2) == "2" && NatToDecimal(3) == "3" && NatToDecimal(4) == "4";
    Numeral(t, dev, 2); Numeral(t, dev, 3); Numeral(t, dev, 4);
    ProductThenSum(t, dev, x, y, z, 2.0, 3.0, 4.0);
    assert FalsyProduct(2.0, 3.0) == 6.0;
  }

  /** "x op y op z" with operator-free parts folds the three values from
      the left, each step under the falsy-accumulator rule. */
  lemma ThreeParts(t: Tables, dev: map<string, Value>, op: char, x: seq<Sym>, y: seq<Sym>, z: seq<Sym>,
                   u: real, v: real, w: real, a: real, b: real)
    requires IsOperator(op)
    requires FirstOperator(x) == None && FirstOperator(y) == None && FirstOperator(z) == None
    requires FirstOperator(x + [C(op)] + (y + [C(op)] + z)) == Some(op)
    requires FlatEval(t, dev, x) == Ok(u) && FlatEval(t, dev, y) == Ok(v) && FlatEval(t, dev, z) == Ok(w)
    requires FoldStep(op, Some(u), v) == Ok(a) && FoldStep(op, Some(a), w) == Ok(b)
    ensures FlatEval(t, dev, x + [C(op)] + (y + [C(op)] + z)) == Ok(b)
  {
    SplitAround(x, C(op), y + [C(op)] + z);
    SplitAround(y, C(op), z);
    assert [x] + ([y] + [z]) == [x, y, z];
    FoldThree(t, dev, op, x + [C(op)] + (y + [C(op)] + z), x, y, z, u, v, w, a, b);
  }

  /** 5-5-3 folds to 0 after two parts, and the falsy 0 is replaced by 3. */
  lemma FiveMinusFiveMinusThree(t: Tables, dev: map<string, Value>)
    requires "5" !in t.aliases && "3" !in t.aliases
    ensures FlatEval(t, dev, ToSyms("5-5-3")) == Ok(3.0)
  {
    DifferenceText();
    DifferenceValue(t, dev, Digit(5), Digit(3));
  }

  lemma DifferenceValue(t: Tables, dev: map<string, Value>, x: seq<Sym>, z: seq<Sym>)
    requires "5" !in t.aliases && "3" !in t.aliases
    requires x == Digit(5) && z == Digit(3)
    ensures FlatEval(t, dev, x + [C('-')] + (x + [C('-')] + z)) == Ok(3.0)
  {
    assert NatToDecimal(5) == "5" && NatToDecimal(3) == "3";
    Numeral(t, dev, 5); Numeral(t, dev, 3);
    ThreeParts(t, dev, '-', x, x, z, 5.0, 5.0, 3.0, 0.0, 3.0);
  }

  /** Replacing a pattern whose last element s does not hold leaves s
      unchanged. */
  lemma {:induction false} ReplaceAbsent<T>(s: seq<T>, pat: seq<T>, rep: seq<T>)
    requires |pat| > 0 && pat[|pat| - 1] !in s
    ensures ReplaceAll(s, pat, rep) == s
    decreases |s|
  {
    if |s| >= |pat| {
      assert s[..|pat|][|pat| - 1] == s[|pat| - 1];
      ReplaceAbsent(s[1..], pat, rep);
      assert s == [s[0]] + s[1..];
    }
  }

  /** Both copies of a group are replaced in one round: "(2)+(2)" becomes
      "2.0+2.0", as str.replace does. */
  lemma TwoCopiesReplaced()
    ensures ReplaceAll(ToSyms("(2)+(2)"), ToSyms("(2)"), [N(2.0)]) == [N(2.0), C('+'), N(2.0)]
  {
    assert ToSyms("(2)") == [C('('), C('2'), C(')')];
    assert ToSyms("(2)+(2)") == ToSyms("(2)") + [C('+')] + ToSyms("(2)");
    TwoCopies(ToSyms("(2)"), [N(2.0)]);
  }

  /** "g+g" for a group g: both copies are replaced. */
  lemma TwoCopies(g: seq<Sym>, rep: seq<Sym>)
    requires g == [C('('), C('2'), C(')')]
    ensures ReplaceAll(g + [C('+')] + g, g, rep) == rep + [C('+')] + rep
  {
    assert g[..2] == [C('('), C('2')];
    assert g + [C('+')] + g == [] + g + ([C('+')] + g);
    ReplaceAllAfter([], g, [C('+')] + g, rep);
    assert [C('+')] + g == [C('+')] + g + [];
    ReplaceAllAfter([C('+')], g, [], rep);
    assert ReplaceAll([], g, rep) == [];
  }

  /** The first ')' of "(g)rest" closes the leading group, and replacing
      that group's text leaves the value followed by the rest. */
  lemma LeadingGroupText(e: seq<Sym>, g: seq<Sym>, rest: seq<Sym>, v: real)
    requires ParenFree(g) && C(')') !in rest
    requires e == [C('(')] + g + [C(')')] + rest
    ensures C(')') in e && NextGroup(e) == Some((0, |g| + 1)) && e[1..|g| + 1] == g
    ensures ReplaceAll(e, e[0..|g| + 2], Spliced(v)) == Spliced(v) + rest
    ensures C(')') !in Spliced(v) + rest
  {
    var group := [C('(')] + g + [C(')')];
    FirstIndexAfter([C('(')] + g, C(')'), rest);
    assert e[..|g| + 1] == [C('(')] + g;
    assert e[..|group|] == group && e[|group|..] == rest;
    assert e[|g| + 1] == C(')');
    ReplaceAbsent(rest, group, Spliced(v));
  }

  /** A leading group "(g)rest" is reduced first: its value replaces it and
      the rest is evaluated flat. */
  lemma LeadingGroup(t: Tables, dev: map<string, Value>, g: seq<Sym>, rest: seq<Sym>, v: real)
    requires ParenFree(g) && C(')') !in rest
    requires FlatEval(t, dev, g) == Ok(v)
    ensures Eval(t, dev, [C('(')] + g + [C(')')] + rest) == FlatEval(t, dev, Spliced(v) + rest)
  {
    var e := [C('(')] + g + [C(')')] + rest;
    LeadingGroupText(e, g, rest, v);
    ReduceRoundTo(t, dev, e, 0, |g| + 1, g, v, Spliced(v) + rest);
  }

  /** A round whose group g has value v and whose replacement leaves no ')'
      ends the reduction there. */
  lemma ReduceRoundTo(t: Tables, dev: map<string, Value>, e: seq<Sym>, open: nat, close: nat, g: seq<Sym>, v: real, f: seq<Sym>)
    requires C(')') in e && NextGroup(e) == Some((open, close))
    requires e[open + 1..close] == g && FlatEval(t, dev, g) == Ok(v)
    requires ReplaceAll(e, e[open..close + 1], Spliced(v)) == f && C(')') !in f
    ensures Reduce(t, dev, e) == Ok(f)
  {
    ReduceRound(t, dev, e, open, close, v);
    assert Reduce(t, dev, f) == Ok(f);
  }

  /** A group already reduced to its number evaluates to that number. */
  lemma Substituted(t: Tables, dev: map<string, Value>, v: real)
    ensures FlatEval(t, dev, [N(v)]) == Ok(v) && FirstOperator([N(v)]) == None
  {
    assert AsText([N(v)]) == None;
  }

  lemma SumOfProductText()
    ensures ToSyms("2+3*4") == Digit(2) + [C('+')] + (Digit(3) + [C('*')] + Digit(4))
  {
  }

  lemma ProductText()
    ensures ToSyms("0*5") == Digit(0) + [C('*')] + Digit(5)
  {
  }

  lemma ProductThenSumText()
    ensures ToSyms("2*3+4") == Digit(2) + [C('*')] + Digit(3) + [C('+')] + Digit(4)
  {
  }

  lemma DifferenceText()
    ensures ToSyms("5-5-3") == Digit(5) + [C('-')] + (Digit(5) + [C('-')] + Digit(3))
  {
  }

  lemma GroupText()
    ensures ToSyms("(2+3)*4") == [C('(')] + (Digit(2) + [C('+')] + Digit(3)) + [C(')')] + ([C('*')] + Digit(4))
  {
  }

  /** (2+3)*4 reduces the group to 5 first: the result is 20. */
  lemma GroupTimesFour(t: Tables, dev: map<string, Value>)
    requires "2" !in t.aliases && "3" !in t.aliases && "4" !in t.aliases
    ensures Eval(t, dev, ToSyms("(2+3)*4")) == Ok(20.0)
  {
    GroupReduced(t, dev);
    GroupProduct(t, dev);
  }

  /** The group (2+3) is replaced by its value. */
  lemma GroupReduced(t: Tables, dev: map<string, Value>)
    requires "2" !in t.aliases && "3" !in t.aliases
    ensures Eval(t, dev, ToSyms("(2+3)*4")) == FlatEval(t, dev, [N(5.0)] + ([C('*')] + Digit(4)))
  {
    GroupText();
    TwoPlusThree(t, dev);
    LeadingGroup(t, dev, Digit(2) + [C('+')] + Digit(3), [C('*')] + Digit(4), 5.0);
    assert Spliced(5.0) == [N(5.0)];
  }

  /** Inside the group, 2+3 is 5. */
  lemma TwoPlusThree(t: Tables, dev: map<string, Value>)
    requires "2" !in t.aliases && "3" !in t.aliases
    ensures FlatEval(t, dev, Digit(2) + [C('+')] + Digit(3)) == Ok(5.0)
    ensures ParenFree(Digit(2) + [C('+')] + Digit(3)) && C(')') !in [C('*')] + Digit(4)
  {
    assert NatToDecimal(2) == "2" && NatToDecimal(3) == "3";
    Numeral(t, dev, 2); Numeral(t, dev, 3);
    assert FirstOperator(Digit(2) + [C('+')] + Digit(3)) == Some('+');
    TwoParts(t, dev, '+', Digit(2), Digit(3), 2.0, 3.0);
  }

  /** What is left after the reduction, 5*4, is 20. */
  lemma GroupProduct(t: Tables, dev: map<string, Value>)
    requires "4" !in t.aliases
    ensures FlatEval(t, dev, [N(5.0)] + ([C('*')] + Digit(4))) == Ok(20.0)
  {
    assert NatToDecimal(4) == "4";
    Numeral(t, dev, 4);
    Substituted(t, dev, 5.0);
    ProductSplit(t, dev, [N(5.0)], Digit(4), 5.0, 4.0);
    assert [N(5.0)] + ([C('*')] + Digit(4)) == [N(5.0)] + [C('*')] + Digit(4);
  }

  lemma NegativeGroupText()
    ensures ToSyms("(1-2)*3") == [C('(')] + (Digit(1) + [C('-')] + Digit(2)) + [C(')')] + ([C('*')] + Digit(3))
  {
  }

  /** A negative group value brings its minus sign back into the text: in
      (1-2)*3 what is left is "-1.0*3", whose split on '-' starts with an
      empty part, so the evaluation fails instead of giving -3. */
  lemma NegativeGroupFails(t: Tables, dev: map<string, Value>)
    requires "" !in t.aliases && "1" !in t.aliases && "2" !in t.aliases
    ensures Eval(t, dev, ToSyms("(1-2)*3")).Err?
  {
    NegativeGroupReduced(t, dev);
    var f := Spliced(-1.0) + ([C('*')] + Digit(3));
    assert f[0] == C('-');
    LeadingOperatorFails(t, dev, f);
  }

  /** The group (1-2) is replaced by the minus sign and the number 1. */
  lemma NegativeGroupReduced(t: Tables, dev: map<string, Value>)
    requires "1" !in t.aliases && "2" !in t.aliases
    ensures Eval(t, dev, ToSyms("(1-2)*3")) == FlatEval(t, dev, Spliced(-1.0) + ([C('*')] + Digit(3)))
  {
    NegativeGroupText();
    OneMinusTwo(t, dev);
    LeadingGroup(t, dev, Digit(1) + [C('-')] + Digit(2), [C('*')] + Digit(3), -1.0);
  }

  /** Inside the group, 1-2 is -1. */
  lemma OneMinusTwo(t: Tables, dev: map<string, Value>)
    requires "1" !in t.aliases && "2" !in t.aliases
    ensures FlatEval(t, dev, Digit(1) + [C('-')] + Digit(2)) == Ok(-1.0)
    ensures ParenFree(Digit(1) + [C('-')] + Digit(2)) && C(')') !in [C('*')] + Digit(3)
  {
    assert NatToDecimal(1) == "1" && NatToDecimal(2) == "2";
    Numeral(t, dev, 1); Numeral(t, dev, 2);
    assert FirstOperator(Digit(1) + [C('-')] + Digit(2)) == Some('-');
    TwoParts(t, dev, '-', Digit(1), Digit(2), 1.0, 2.0);
  }

  lemma SpacedGroupText()
    ensures ToSyms("(1+2) *3") == [C('(')] + (Digit(1) + [C('+')] + Digit(2)) + [C(')')] + ([C(' '), C('*')] + Digit(3))
  {
  }

  /** Whitespace next to a group is harmless: (1+2) *3 leaves "3.0 *3",
      whose first part float() reads as 3.0, so the result is 9. */
  lemma SpacedGroupTimesThree(t: Tables, dev: map<string, Value>)
    requires "1" !in t.aliases && "2" !in t.aliases && "3" !in t.aliases
    ensures Eval(t, dev, ToSyms("(1+2) *3")) == Ok(9.0)
  {
    SpacedGroupReduced(t, dev);
    SpacedProduct(t, dev);
  }

  /** The group (1+2) is replaced by its value, the space stays. */
  lemma SpacedGroupReduced(t: Tables, dev: map<string, Value>)
    requires "1" !in t.aliases && "2" !in t.aliases
    ensures Eval(t, dev, ToSyms("(1+2) *3")) == FlatEval(t, dev, [N(3.0)] + ([C(' '), C('*')] + Digit(3)))
  {
    SpacedGroupText();
    OnePlusTwo(t, dev);
    LeadingGroup(t, dev, Digit(1) + [C('+')] + Digit(2), [C(' '), C('*')] + Digit(3), 3.0);
    assert Spliced(3.0) == [N(3.0)];
  }

  /** Inside the group, 1+2 is 3. */
  lemma OnePlusTwo(t: Tables, dev: map<string, Value>)
    requires "1" !in t.aliases && "2" !in t.aliases
    ensures FlatEval(t, dev, Digit(1) + [C('+')] + Digit(2)) == Ok(3.0)
    ensures ParenFree(Digit(1) + [C('+')] + Digit(2)) && C(')') !in [C(' '), C('*')] + Digit(3)
  {
    assert NatToDecimal(1) == "1" && NatToDecimal(2) == "2";
    Numeral(t, dev, 1); Numeral(t, dev, 2);
    assert FirstOperator(Digit(1) + [C('+')] + Digit(2)) == Some('+');
    TwoParts(t, dev, '+', Digit(1), Digit(2), 1.0, 2.0);
  }

  /** What is left, "3.0 *3", is 9. */
  lemma SpacedProduct(t: Tables, dev: map<string, Value>)
    requires "3" !in t.aliases
    ensures FlatEval(t, dev, [N(3.0)] + ([C(' '), C('*')] + Digit(3))) == Ok(9.0)
  {
    assert NatToDecimal(3) == "3";
    Numeral(t, dev, 3);
    SpacedSubstituted(t, dev, [N(3.0), C(' ')], 3.0);
    ProductSplit(t, dev, [N(3.0), C(' ')], Digit(3), 3.0, 3.0);
    assert [N(3.0)] + ([C(' '), C('*')] + Digit(3)) == [N(3.0), C(' ')] + [C('*')] + Digit(3);
  }

  /** A substituted value with a space after it still evaluates to the
      value. */
  lemma SpacedSubstituted(t: Tables, dev: map<string, Value>, e: seq<Sym>, v: real)
    requires e == [N(v), C(' ')]
    ensures FlatEval(t, dev, e) == Ok(v) && FirstOperator(e) == None
  {
    assert AsText(e) == None;
    assert e[1..] == [C(' ')];
    assert SpacedValue(e) == Some(v);
  }

  /** An expression that starts with an operator puts an empty part first
      (or a part that itself starts with an operator), so it is an error,
      never 0. */
  lemma {:induction false} LeadingOperatorFails(t: Tables, dev: map<string, Value>, e: seq<Sym>)
    requires "" !in t.aliases
    requires |e| > 0 && e[0].C? && IsOperator(e[0].c)
    ensures FlatEval(t, dev, e).Err?
    decreases |e|
  {
    var op := FirstOperator(e).value;
    var i := FirstIndex(e, C(op)).value;
    var parts := Split(e, C(op));
    assert parts[0] == e[..i];
    if i == 0 {
      assert AsText([]) == Some("");
      assert FlatEval(t, dev, []) == Err(BadLiteral(""));
    } else {
      LeadingOperatorFails(t, dev, e[..i]);
    }
  }
}
