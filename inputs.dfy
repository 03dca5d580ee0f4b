/** How set_values (src/Test.py:106-127) reads a script cell and writes the
    result to the device: strings lose every space; a leading '=' makes the
    rest an expression; the open/present/on and closed/absent/off words
    become the tokens "active" and "inactive"; anything else, and every
    number, is written as it is. */
module Inputs {
  import opened Values
  import opened Text
  import opened Expression

  /** What a cell asks for: an expression to evaluate, or a value to write. */
  datatype Directive = Formula(expr: string) | Write(v: Value)

  /** The words, compared in lower case, that switch a point on or off. */
  predicate OnWord(s: string) { s == "open" || s == "present" || s == "on" }
  predicate OffWord(s: string) { s == "closed" || s == "absent" || s == "off" }

  /** The directive of one cell. */
  function Classify(cell: Cell): (d: Directive)
    ensures cell.CNum? ==> d == Write(Num(cell.x))
    ensures d.Formula? ==> ' ' !in d.expr
    ensures d.Write? && d.v.Tok? ==> ' ' !in d.v.s
  {
    match cell
    case CNum(x) => Write(Num(x))
    case CStr(s) =>
      var v := StripSpaces(s);
      if |v| > 0 && v[0] == '=' then
        assert ' ' !in v[1..] by { assert forall k :: 0 <= k < |v| - 1 ==> v[1..][k] == v[k + 1]; }
        Formula(v[1..])
      else if OnWord(Lower(v)) then Write(Tok("active"))
      else if OffWord(Lower(v)) then Write(Tok("inactive"))
      else Write(Tok(v))
  }

  /** The value a directive writes, evaluated against the device as it is
      at that moment. */
  function Resolve(t: Tables, dev: map<string, Value>, d: Directive): (r: Result<Value>)
    ensures d.Write? ==> r == Ok(d.v)
    ensures d.Formula? ==> (r.Ok? <==> Eval(t, dev, ToSyms(d.expr)).Ok?)
    ensures d.Formula? && r.Ok? ==> r.value == Num(Eval(t, dev, ToSyms(d.expr)).value)
    ensures r.Err? ==> FlatError(r.error) || r.error == UnmatchedClose
  {
    match d
    case Write(v) => Ok(v)
    case Formula(e) =>
      match Eval(t, dev, ToSyms(e))
      case Err(x) => Err(x)
      case Ok(x) => Ok(Num(x))
  }

  /** The device after a run of writes, and the error that stopped it. */
  datatype Applied = Applied(device: map<string, Value>, error: Option<Error>)

  /** set_values over the cells in dictionary order: each is resolved
      against the device left by the writes before it; an error stops the
      loop and the writes already made stay. */
  function SetValuesSpec(t: Tables, dev: map<string, Value>, cells: seq<(string, Cell)>): (r: Applied)
    ensures r.error == None ==> forall k :: k in dev ==> k in r.device
    ensures r.error == None ==> forall i :: 0 <= i < |cells| ==> cells[i].0 in r.device
    ensures r.error.Some? ==> FlatError(r.error.value) || r.error.value == UnmatchedClose
    decreases |cells|
  {
    if cells == [] then Applied(dev, None)
    else match Resolve(t, dev, Classify(cells[0].1))
      case Err(x) => Applied(dev, Some(x))
      case Ok(v) =>
        var rest := SetValuesSpec(t, dev[cells[0].0 := v], cells[1..]);
        assert Keys(cells) == {cells[0].0} + Keys(cells[1..]);
        rest
  }

  /** Whether every cell is written as it is, with no expression. */
  predicate LiteralOnly(cells: seq<(string, Cell)>) {
    forall i :: 0 <= i < |cells| ==> Classify(cells[i].1).Write?
  }

  /** Whether no key occurs twice, as in a dictionary. */
  predicate DistinctKeys(cells: seq<(string, Cell)>) {
    forall i, j :: 0 <= i < j < |cells| ==> cells[i].0 != cells[j].0
  }

  /** The map a literal-only row writes: each key to its classified value. */
  function Writes(cells: seq<(string, Cell)>): (w: map<string, Value>)
    requires LiteralOnly(cells)
    ensures w.Keys == Keys(cells)
    decreases |cells|
  {
    if cells == [] then map[]
    else
      assert Keys(cells) == {cells[0].0} + Keys(cells[1..]);
      Writes(cells[1..])[cells[0].0 := Classify(cells[0].1).v]
  }

  /** Only the row's keys are touched: every other point keeps its value,
      and none is added, whether the loop finishes or stops at an error. */
  lemma {:induction false} OnlyKeysChange(t: Tables, dev: map<string, Value>, cells: seq<(string, Cell)>, k: string)
    requires k !in Keys(cells)
    ensures k in SetValuesSpec(t, dev, cells).device <==> k in dev
    ensures k in dev ==> SetValuesSpec(t, dev, cells).device[k] == dev[k]
    decreases |cells|
  {
    if cells != [] {
      assert Keys(cells) == {cells[0].0} + Keys(cells[1..]);
      match Resolve(t, dev, Classify(cells[0].1))
      case Err(_) =>
      case Ok(v) => OnlyKeysChange(t, dev[cells[0].0 := v], cells[1..], k);
    }
  }

  /** One write of the loop: a cell that resolves is written and the loop
      goes on with the rest. */
  lemma SetValuesStep(t: Tables, dev: map<string, Value>, cells: seq<(string, Cell)>, v: Value)
    requires |cells| > 0 && Resolve(t, dev, Classify(cells[0].1)) == Ok(v)
    ensures SetValuesSpec(t, dev, cells) == SetValuesSpec(t, dev[cells[0].0 := v], cells[1..])
  {
  }

  /** A cell that raises stops the loop: nothing more is written and the
      error is reported. */
  lemma SetValuesFails(t: Tables, dev: map<string, Value>, cells: seq<(string, Cell)>, x: Error)
    requires |cells| > 0 && Resolve(t, dev, Classify(cells[0].1)) == Err(x)
    ensures SetValuesSpec(t, dev, cells) == Applied(dev, Some(x))
  {
  }

  /** The loop over a + b is the loop over a and then, unless a raised,
      the loop over b on the device a left. */
  lemma {:induction false} SetValuesAppend(t: Tables, dev: map<string, Value>, a: seq<(string, Cell)>, b: seq<(string, Cell)>)
    ensures var ra := SetValuesSpec(t, dev, a);
      SetValuesSpec(t, dev, a + b) == if ra.error.Some? then ra else SetValuesSpec(t, ra.device, b)
    decreases |a|
  {
    if a == [] {
      assert a + b == b;
    } else {
      assert (a + b)[0] == a[0] && (a + b)[1..] == a[1..] + b;
      match Resolve(t, dev, Classify(a[0].1))
      case Err(_) =>
      case Ok(v) => SetValuesAppend(t, dev[a[0].0 := v], a[1..], b);
    }
  }

  /** Cell k raises after the k cells before it resolved: their writes
      stay, no later cell is written, and the error is reported. */
  lemma SetValuesFailsAt(t: Tables, dev: map<string, Value>, cells: seq<(string, Cell)>, k: nat, x: Error)
    requires k < |cells| && SetValuesSpec(t, dev, cells[..k]).error.None?
    requires Resolve(t, SetValuesSpec(t, dev, cells[..k]).device, Classify(cells[k].1)) == Err(x)
    ensures SetValuesSpec(t, dev, cells) == Applied(SetValuesSpec(t, dev, cells[..k]).device, Some(x))
  {
    assert cells == cells[..k] + cells[k..];
    SetValuesAppend(t, dev, cells[..k], cells[k..]);
    SetValuesFails(t, SetValuesSpec(t, dev, cells[..k]).device, cells[k..], x);
  }

  /** The tail of a literal-only row with distinct keys is one too, and its
      keys do not include the head's. */
  lemma LiteralTail(cells: seq<(string, Cell)>)
    requires |cells| > 0 && LiteralOnly(cells) && DistinctKeys(cells)
    ensures LiteralOnly(cells[1..]) && DistinctKeys(cells[1..])
    ensures cells[0].0 !in Keys(cells[1..])
  {
    assert forall i :: 0 <= i < |cells| - 1 ==> cells[1..][i] == cells[i + 1];
  }

  /** Writing one more key before a map that lacks it. */
  lemma WriteFirst(dev: map<string, Value>, w: map<string, Value>, k: string, v: Value)
    requires k !in w
    ensures dev[k := v] + w == dev + w[k := v]
  {
  }

  /** A row without expressions never fails and writes exactly its own
      values over the device. */
  lemma {:induction false} LiteralRow(t: Tables, dev: map<string, Value>, cells: seq<(string, Cell)>)
    requires LiteralOnly(cells) && DistinctKeys(cells)
    ensures SetValuesSpec(t, dev, cells) == Applied(dev + Writes(cells), None)
    decreases |cells|
  {
    if cells != [] {
      var k, v := cells[0].0, Classify(cells[0].1).v;
      SetValuesStep(t, dev, cells, v);
      LiteralTail(cells);
      LiteralRow(t, dev[k := v], cells[1..]);
      WriteFirst(dev, Writes(cells[1..]), k, v);
    }
  }

  /** Applying a literal-only row a second time changes nothing. */
  lemma LiteralRowIdempotent(t: Tables, dev: map<string, Value>, cells: seq<(string, Cell)>)
    requires LiteralOnly(cells) && DistinctKeys(cells)
    ensures SetValuesSpec(t, SetValuesSpec(t, dev, cells).device, cells) == SetValuesSpec(t, dev, cells)
  {
    LiteralRow(t, dev, cells);
    LiteralRow(t, dev + Writes(cells), cells);
    assert dev + Writes(cells) + Writes(cells) == dev + Writes(cells);
  }

  /** Removing spaces twice is removing them once. */
  lemma {:induction false} StripSpacesIdempotent(s: string)
    ensures StripSpaces(StripSpaces(s)) == StripSpaces(s)
  {
    if s != [] {
      StripSpacesIdempotent(s[1..]);
      if s[0] != ' ' {
        assert StripSpaces(s) == [s[0]] + StripSpaces(s[1..]);
        assert StripSpaces(s)[1..] == StripSpaces(s[1..]);
      }
    }
  }

  /** Spaces in a cell never matter: the cell and its space-free form are
      read the same way. */
  lemma ClassifyIgnoresSpaces(s: string)
    ensures Classify(CStr(s)) == Classify(CStr(StripSpaces(s)))
  {
    StripSpacesIdempotent(s);
  }

  /** The switch words in any letter case and with any spaces become the
      active and inactive tokens. */
  lemma Vocabulary(s: string)
    ensures OnWord(Lower(StripSpaces(s))) ==> Classify(CStr(s)) == Write(Tok("active"))
    ensures OffWord(Lower(StripSpaces(s))) ==> Classify(CStr(s)) == Write(Tok("inactive"))
  {
    var v := StripSpaces(s);
    if |v| > 0 && v[0] == '=' {
      assert Lower(v)[0] == '=';
    }
  }

  /** A string that is neither an expression nor a switch word is written
      without its spaces, and not otherwise changed (case included). */
  lemma Verbatim(s: string)
    requires var v := StripSpaces(s); !(|v| > 0 && v[0] == '=') && !OnWord(Lower(v)) && !OffWord(Lower(v))
    ensures Classify(CStr(s)) == Write(Tok(StripSpaces(s)))
  {
  }

  /** An '=' cell writes the number its expression evaluates to, and fails
      with the expression's own error otherwise. */
  lemma FormulaCell(t: Tables, dev: map<string, Value>, key: string, s: string)
    requires |StripSpaces(s)| > 0 && StripSpaces(s)[0] == '='
    ensures var e := ToSyms(StripSpaces(s)[1..]);
      SetValuesSpec(t, dev, [(key, CStr(s))]) ==
        match Eval(t, dev, e)
        case Ok(x) => Applied(dev[key := Num(x)], None)
        case Err(x) => Applied(dev, Some(x))
  {
    var r := SetValuesSpec(t, dev, [(key, CStr(s))]);
    assert [(key, CStr(s))][1..] == [];
  }
}
