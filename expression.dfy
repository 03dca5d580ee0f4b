/** The expression language of the test script (src/Test.py:220-259).
    Parenthesised groups are reduced innermost first; a flat expression is
    split on the first operator of the fixed list + - * / that occurs in
    it, and the parts are folded left to right. There is no precedence,
    and a running result of 0 is falsy, so the next part replaces it. */
module Expression {
  import opened Values
  import opened Text
  import opened Literal

  /** The four operators of the script language. */
  predicate IsOperator(c: char) { c == '+' || c == '-' || c == '*' || c == '/' }

  /** Whether e holds none of the four operators. */
  predicate OperatorFree(e: seq<Sym>) {
    C('+') !in e && C('-') !in e && C('*') !in e && C('/') !in e
  }

  /** The characters of a symbol sequence, when it holds no substituted
      number. */
  function AsText(e: seq<Sym>): (r: Option<string>)
    ensures r.Some? ==> |r.value| == |e|
  {
    if e == [] then Some("")
    else match e[0]
      case N(_) => None
      case C(c) => match AsText(e[1..]) case None => None case Some(s) => Some([c] + s)
  }

  lemma {:induction false} AsTextToSyms(s: string)
    ensures AsText(ToSyms(s)) == Some(s)
  {
    if s != [] {
      assert ToSyms(s)[1..] == ToSyms(s[1..]);
      AsTextToSyms(s[1..]);
      assert s == [s[0]] + s[1..];
    }
  }

  /** The first operator of the list + - * / that occurs anywhere in e:
      an operator is chosen exactly when it occurs and no operator before
      it in the list does. */
  function FirstOperator(e: seq<Sym>): (r: Option<char>)
    ensures r.None? <==> OperatorFree(e)
    ensures r.Some? ==> IsOperator(r.value) && C(r.value) in e
    ensures r == Some('+') <==> C('+') in e
    ensures r == Some('-') <==> C('+') !in e && C('-') in e
    ensures r == Some('*') <==> C('+') !in e && C('-') !in e && C('*') in e
    ensures r == Some('/') <==> C('+') !in e && C('-') !in e && C('*') !in e && C('/') in e
  {
    if C('+') in e then Some('+')
    else if C('-') in e then Some('-')
    else if C('*') in e then Some('*')
    else if C('/') in e then Some('/')
    else None
  }

  /** One binary operation of the fold; Python raises on division by 0. */
  function Apply(op: char, a: real, b: real): (r: Result<real>)
    ensures r.Err? <==> op == '/' && b == 0.0
    ensures r.Err? ==> r.error == DivisionByZero
  {
    if op == '+' then Ok(a + b)
    else if op == '-' then Ok(a - b)
    else if op == '*' then Ok(a * b)
    else if op == '/' then if b == 0.0 then Err(DivisionByZero) else Ok(a / b)
    else Ok(b)
  }

  /** Python's `if result:` on the running result: None and 0 are falsy. */
  predicate Truthy(acc: Option<real>) {
    acc.Some? && acc.value != 0.0
  }

  /** One step of the fold: a falsy running result is replaced by the
      next part's value instead of being combined with it. */
  function FoldStep(op: char, acc: Option<real>, v: real): (r: Result<real>)
    ensures !Truthy(acc) ==> r == Ok(v)
    ensures Truthy(acc) ==> r == Apply(op, acc.value, v)
  {
    if Truthy(acc) then Apply(op, acc.value, v) else Ok(v)
  }

  /** The live numeric value of a device point. */
  function Lookup(dev: map<string, Value>, point: string): (r: Result<real>)
    ensures r.Ok? <==> point in dev && dev[point].Num?
    ensures r.Ok? ==> r.value == dev[point].x
  {
    if point !in dev then Err(UnknownPoint(point))
    else match dev[point]
      case Num(x) => Ok(x)
      case Tok(_) => Err(NotNumeric(point))
  }

  /** Whether a token is whitespace only. */
  predicate Blank(e: seq<Sym>) {
    forall k :: 0 <= k < |e| ==> e[k].C? && IsSpace(e[k].c)
  }

  /** A substituted group result with nothing but whitespace around it, the
      way float() reads "3.0 " after a group was replaced by its value. */
  function SpacedValue(e: seq<Sym>): (r: Option<real>)
    ensures r.Some? ==> AsText(e).None?
  {
    if e == [] then None
    else if e[0].N? then (if Blank(e[1..]) then Some(e[0].x) else None)
    else if IsSpace(e[0].c) then
      assert e == [e[0]] + e[1..];
      SpacedValue(e[1..])
    else None
  }

  /** SpacedValue finds the value exactly when the token is whitespace, one
      substituted value and whitespace. */
  lemma {:induction false} SpacedValueIff(e: seq<Sym>)
    ensures SpacedValue(e).Some? <==> exists i :: 0 <= i < |e| && e[i].N? && Blank(e[..i]) && Blank(e[i + 1..])
    ensures forall i :: 0 <= i < |e| && e[i].N? && Blank(e[..i]) && Blank(e[i + 1..]) ==> SpacedValue(e) == Some(e[i].x)
  {
    if e != [] {
      SpacedValueIff(e[1..]);
      forall i | 0 < i < |e| && e[i].N? && Blank(e[..i]) && Blank(e[i + 1..])
        ensures SpacedValue(e) == Some(e[i].x)
      {
        SpacedShift(e, i);
      }
      if SpacedValue(e).Some? && !e[0].N? {
        var i :| 0 <= i < |e| - 1 && e[1..][i].N? && Blank(e[1..][..i]) && Blank(e[1..][i + 1..]);
        SpacedUnshift(e, i);
      }
      if SpacedValue(e).Some? && e[0].N? {
        assert Blank(e[..0]);
      }
    }
  }

  /** A value framed by whitespace past a leading blank is framed by
      whitespace in the rest of the token. */
  lemma SpacedShift(e: seq<Sym>, i: int)
    requires 0 < i < |e| && e[i].N? && Blank(e[..i]) && Blank(e[i + 1..])
    ensures e[0].C? && IsSpace(e[0].c)
    ensures e[1..][i - 1] == e[i] && Blank(e[1..][..i - 1]) && Blank(e[1..][i..])
  {
    assert e[0] == e[..i][0];
    assert e[1..][..i - 1] == e[1..i] && e[1..][i..] == e[i + 1..];
    var head := e[1..][..i - 1];
    forall k | 0 <= k < |head| ensures head[k].C? && IsSpace(head[k].c) { assert head[k] == e[..i][k + 1]; }
  }

  /** The converse: a leading blank in front of a framed value keeps it
      framed. */
  lemma SpacedUnshift(e: seq<Sym>, i: int)
    requires 0 <= i < |e| - 1 && e[0].C? && IsSpace(e[0].c)
    requires e[1..][i].N? && Blank(e[1..][..i]) && Blank(e[1..][i + 1..])
    ensures e[i + 1].N? && Blank(e[..i + 1]) && Blank(e[i + 2..])
  {
    assert e[1..][i + 1..] == e[i + 2..];
    var head := e[..i + 1];
    forall k | 0 <= k < |head| ensures head[k].C? && IsSpace(head[k].c) {
      if k > 0 { assert head[k] == e[1..][..i][k - 1]; }
    }
  }

  /** A token with no operator: a substituted group result, with any
      whitespace around it, stands for itself; text is a point alias first
      and a literal otherwise. */
  function Bare(t: Tables, dev: map<string, Value>, e: seq<Sym>): (r: Result<real>)
    ensures SpacedValue(e).Some? ==> r == Ok(SpacedValue(e).value)
    ensures AsText(e).Some? && AsText(e).value in t.aliases ==>
      r == Lookup(dev, t.aliases[AsText(e).value])
    ensures AsText(e).Some? && AsText(e).value !in t.aliases ==>
      (r.Ok? <==> ParseLiteral(AsText(e).value).Some?)
    ensures AsText(e).Some? && AsText(e).value !in t.aliases && r.Ok? ==>
      r.value == ParseLiteral(AsText(e).value).value
    ensures SpacedValue(e).None? && AsText(e).None? ==> r == Err(SpliceToken)
  {
    match AsText(e)
    case Some(s) =>
      if s in t.aliases then Lookup(dev, t.aliases[s])
      else (match ParseLiteral(s)
        case None => Err(BadLiteral(s))
        case Some(x) => Ok(x))
    case None =>
      match SpacedValue(e)
      case Some(x) => Ok(x)
      case None => Err(SpliceToken)
  }

  /** Errors a flat evaluation can raise. */
  predicate FlatError(err: Error) {
    err.BadLiteral? || err.SpliceToken? || err.UnknownPoint? || err.NotNumeric? || err.DivisionByZero?
  }

  /** get_value_from_expression: the flat evaluator. */
  function FlatEval(t: Tables, dev: map<string, Value>, e: seq<Sym>): (r: Result<real>)
    ensures r.Err? ==> FlatError(r.error)
    decreases |e|
  {
    match FirstOperator(e)
    case None => Bare(t, dev, e)
    case Some(op) => FoldParts(t, dev, op, Split(e, C(op)), None, |e|)
  }

  /** The left-to-right fold over the parts of one split, starting from
      the running result acc; the first error stops it. */
  function FoldParts(t: Tables, dev: map<string, Value>, op: char, parts: seq<seq<Sym>>,
                     acc: Option<real>, bound: nat): (r: Result<real>)
    requires forall i :: 0 <= i < |parts| ==> |parts[i]| < bound
    requires |parts| > 0 || acc.Some?
    ensures r.Err? ==> FlatError(r.error)
    decreases bound, |parts|
  {
    if parts == [] then Ok(acc.value)
    else match FlatEval(t, dev, parts[0])
      case Err(x) => Err(x)
      case Ok(v) =>
        match FoldStep(op, acc, v)
        case Err(x) => Err(x)
        case Ok(a) => FoldParts(t, dev, op, parts[1..], Some(a), bound)
  }

  /** The group to reduce next: the first ')' and the nearest '(' before
      it, as (open, close) indices. */
  function NextGroup(e: seq<Sym>): (r: Option<(nat, nat)>)
    requires C(')') in e
    ensures r.Some? ==> r.value.0 < r.value.1 < |e| && e[r.value.0] == C('(') && e[r.value.1] == C(')')
    ensures r.Some? ==> C(')') !in e[..r.value.1] && ParenFree(e[r.value.0 + 1..r.value.1])
    ensures r.None? ==> exists k :: 0 <= k < |e| && e[k] == C(')') && C('(') !in e[..k]
  {
    var close := FirstIndex(e, C(')')).value;
    match LastIndex(e[..close], C('('))
    case None => None
    case Some(open) =>
      assert e[open + 1..close] == e[..close][open + 1..];
      Some((open, close))
  }

  /** What str(value) splices back into the text for a group's value: the
      number itself, and for a negative value also its minus sign, which
      the later splits read as an operator. */
  function Spliced(v: real): (r: seq<Sym>)
    ensures |r| > 0 && ParenFree(r) && r[|r| - 1] == N(if v < 0.0 then -v else v)
    ensures C('-') in r <==> v < 0.0
  {
    if v < 0.0 then [C('-'), N(-v)] else [N(v)]
  }

  /** Replacing a group that ends in ')' by a number removes at least one
      ')'. */
  lemma GroupShrinks(e: seq<Sym>, open: nat, close: nat, v: real)
    requires open < close < |e| && e[close] == C(')')
    ensures multiset(ReplaceAll(e, e[open..close + 1], Spliced(v)))[C(')')] < multiset(e)[C(')')]
  {
    var group := e[open..close + 1];
    assert OccursAt(e, group, open);
    assert group[|group| - 1] == C(')');
    ReplaceAllCountLt(e, group, Spliced(v), C(')'), open);
  }

  /** The loop of evaluate_expression: each round evaluates the innermost
      group ending at the first ')' and replaces every copy of that group's
      text by the result, until no ')' is left. A ')' with no '(' before it
      is an error. */
  function Reduce(t: Tables, dev: map<string, Value>, e: seq<Sym>): (r: Result<seq<Sym>>)
    ensures r.Ok? ==> C(')') !in r.value
    ensures r.Err? ==> FlatError(r.error) || r.error == UnmatchedClose
    decreases multiset(e)[C(')')]
  {
    if C(')') !in e then Ok(e)
    else match NextGroup(e)
      case None => Err(UnmatchedClose)
      case Some((open, close)) =>
        match FlatEval(t, dev, e[open + 1..close])
        case Err(x) => Err(x)
        case Ok(v) =>
          GroupShrinks(e, open, close, v);
          Reduce(t, dev, ReplaceAll(e, e[open..close + 1], Spliced(v)))
  }

  /** evaluate_expression: reduce the groups, then evaluate what is left. */
  function Eval(t: Tables, dev: map<string, Value>, e: seq<Sym>): (r: Result<real>)
    ensures C(')') !in e ==> r == FlatEval(t, dev, e)
    ensures r.Err? ==> FlatError(r.error) || r.error == UnmatchedClose
  {
    match Reduce(t, dev, e)
    case Err(x) => Err(x)
    case Ok(f) => FlatEval(t, dev, f)
  }

  // ---------------------------------------------------------------------
  // Balanced parentheses

  /** Whether e closes every group it opens, given d groups already open. */
  predicate BalancedFrom(e: seq<Sym>, d: nat)
    decreases |e|
  {
    if e == [] then d == 0
    else if e[0] == C('(') then BalancedFrom(e[1..], d + 1)
    else if e[0] == C(')') then d > 0 && BalancedFrom(e[1..], d - 1)
    else BalancedFrom(e[1..], d)
  }

  predicate Balanced(e: seq<Sym>) { BalancedFrom(e, 0) }

  predicate ParenFree(e: seq<Sym>) { C('(') !in e && C(')') !in e }

  lemma {:induction false} BalancedSkip(x: seq<Sym>, rest: seq<Sym>, d: nat)
    requires ParenFree(x)
    ensures BalancedFrom(x + rest, d) == BalancedFrom(rest, d)
    decreases |x|
  {
    if x != [] {
      assert (x + rest)[0] == x[0] && x[0] != C('(') && x[0] != C(')');
      assert (x + rest)[1..] == x[1..] + rest;
      assert ParenFree(x[1..]) by {
        assert forall s :: s in x[1..] ==> s in x;
      }
      BalancedSkip(x[1..], rest, d);
    } else {
      assert x + rest == rest;
    }
  }

  /** Replacing a flat group "(inner)" by a paren-free token keeps a
      balanced expression balanced. */
  lemma {:induction false} ReplaceKeepsBalance(s: seq<Sym>, inner: seq<Sym>, rep: seq<Sym>, d: nat)
    requires ParenFree(inner) && ParenFree(rep)
    requires BalancedFrom(s, d)
    ensures BalancedFrom(ReplaceAll(s, [C('(')] + inner + [C(')')], rep), d)
    decreases |s|
  {
    var pat := [C('(')] + inner + [C(')')];
    if |s| < |pat| {
    } else if s[..|pat|] == pat {
      var rest := s[|pat|..];
      assert s == [C('(')] + (inner + ([C(')')] + rest));
      BalancedSkip(inner, [C(')')] + rest, d + 1);
      assert BalancedFrom(rest, d);
      ReplaceKeepsBalance(rest, inner, rep, d);
      BalancedSkip(rep, ReplaceAll(rest, pat, rep), d);
    } else {
      var d' := if s[0] == C('(') then d + 1 else if s[0] == C(')') then d - 1 else d;
      ReplaceKeepsBalance(s[1..], inner, rep, d');
      assert ReplaceAll(s, pat, rep) == [s[0]] + ReplaceAll(s[1..], pat, rep);
    }
  }

  /** In a balanced expression, the first ')' has a '(' before it. */
  lemma {:induction false} CloseHasOpen(e: seq<Sym>, d: nat, k: nat)
    requires BalancedFrom(e, d)
    requires k < |e| && e[k] == C(')') && C(')') !in e[..k]
    ensures d > 0 || C('(') in e[..k]
    decreases k
  {
    if k > 0 && e[0] != C('(') {
      assert e[0] != C(')') by { assert e[0] == e[..k][0]; }
      assert e[1..][..k - 1] == e[1..k];
      CloseHasOpen(e[1..], d, k - 1);
      if C('(') in e[1..k] {
        var j :| 1 <= j < k && e[j] == C('(');
        assert e[..k][j] == C('(');
      }
    } else if k > 0 {
      assert e[..k][0] == C('(');
    }
  }

  /** A balanced expression without ')' has no '(' either. */
  lemma {:induction false} NoCloseNoOpen(e: seq<Sym>, d: nat)
    requires BalancedFrom(e, d) && C(')') !in e
    ensures d == 0 && C('(') !in e
    decreases |e|
  {
    if e != [] {
      var d' := if e[0] == C('(') then d + 1 else d;
      assert e == [e[0]] + e[1..];
      NoCloseNoOpen(e[1..], d');
    }
  }

  /** One round on a balanced expression keeps it balanced and removes at
      least one ')'. */
  lemma BalancedRound(e: seq<Sym>, open: nat, close: nat, v: real)
    requires Balanced(e) && C(')') in e && NextGroup(e) == Some((open, close))
    ensures Balanced(ReplaceAll(e, e[open..close + 1], Spliced(v)))
    ensures multiset(ReplaceAll(e, e[open..close + 1], Spliced(v)))[C(')')] < multiset(e)[C(')')]
  {
    var inner := e[open + 1..close];
    var group := e[open..close + 1];
    assert group == [C('(')] + inner + [C(')')];
    ReplaceKeepsBalance(e, inner, Spliced(v), 0);
    GroupShrinks(e, open, close, v);
  }

  /** A balanced expression that still holds a ')' has a group to reduce. */
  lemma BalancedHasGroup(e: seq<Sym>)
    requires Balanced(e) && C(')') in e
    ensures NextGroup(e).Some?
  {
    var close := FirstIndex(e, C(')')).value;
    CloseHasOpen(e, 0, close);
  }

  /** One round of the reduction: the group's value replaces its text and
      the reduction goes on. */
  lemma ReduceRound(t: Tables, dev: map<string, Value>, e: seq<Sym>, open: nat, close: nat, v: real)
    requires C(')') in e && NextGroup(e) == Some((open, close))
    requires FlatEval(t, dev, e[open + 1..close]) == Ok(v)
    ensures Reduce(t, dev, e) == Reduce(t, dev, ReplaceAll(e, e[open..close + 1], Spliced(v)))
  {
  }

  /** A group whose inside fails ends the reduction with that error. */
  lemma ReduceRoundFails(t: Tables, dev: map<string, Value>, e: seq<Sym>, open: nat, close: nat)
    requires C(')') in e && NextGroup(e) == Some((open, close))
    requires FlatEval(t, dev, e[open + 1..close]).Err?
    ensures Reduce(t, dev, e) == Err(FlatEval(t, dev, e[open + 1..close]).error)
  {
  }

  /** Reducing a balanced expression never meets an unmatched ')', and
      what it hands to the flat evaluator has no parentheses at all. */
  lemma {:induction false} BalancedReduces(t: Tables, dev: map<string, Value>, e: seq<Sym>)
    requires Balanced(e)
    ensures Reduce(t, dev, e).Err? ==> FlatError(Reduce(t, dev, e).error)
    ensures Reduce(t, dev, e).Ok? ==> ParenFree(Reduce(t, dev, e).value)
    decreases multiset(e)[C(')')]
  {
    if C(')') !in e {
      NoCloseNoOpen(e, 0);
    } else {
      BalancedHasGroup(e);
      var (open, close) := NextGroup(e).value;
      var inner := FlatEval(t, dev, e[open + 1..close]);
      if inner.Ok? {
        ReduceRound(t, dev, e, open, close, inner.value);
        BalancedRound(e, open, close, inner.value);
        BalancedReduces(t, dev, ReplaceAll(e, e[open..close + 1], Spliced(inner.value)));
      } else {
        ReduceRoundFails(t, dev, e, open, close);
      }
    }
  }

  /** On a balanced expression, Eval fails only as the flat evaluator
      does: never with an unmatched ')'. */
  lemma BalancedEval(t: Tables, dev: map<string, Value>, e: seq<Sym>)
    requires Balanced(e)
    ensures Eval(t, dev, e).Err? ==> FlatError(Eval(t, dev, e).error)
  {
    BalancedReduces(t, dev, e);
  }
}
