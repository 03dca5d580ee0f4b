/** Shared vocabulary of the test runner: device values, script cells,
    expression symbols, errors and the read-only point tables. */
module Values {

  datatype Option<+T> = None | Some(value: T)

  datatype Result<+T> = Ok(value: T) | Err(error: Error)

  /** Why an evaluation, an input write or an assertion raised instead of
      returning (the source's Python exceptions). */
  datatype Error =
    | BadLiteral(text: string)     // float(token) failed
    | SpliceToken                  // a token mixes text with a substituted group result
    | UnknownPoint(name: string)   // an alias names a point the device does not have
    | NotNumeric(name: string)     // arithmetic on a point holding a token such as "active"
    | DivisionByZero
    | UnmatchedClose               // a ')' with no '(' before it
    | MissingKey(key: string)      // dictionary lookup of an absent key
    | MissingStep(step: int)       // no outputs recorded, or no script row, for that step
    | Incomparable(key: string)    // ordering a number against a token

  /** A live point value: a number or a token such as "active". */
  datatype Value = Num(x: real) | Tok(s: string)

  /** A raw cell of the test script: a number or a string. */
  datatype Cell = CNum(x: real) | CStr(s: string)

  /** One symbol of an expression being reduced: a character of the
      script text, or the numeric result substituted for a group. */
  datatype Sym = C(c: char) | N(x: real)

  /** The point tables, fixed for a run: test alias -> device point name,
      and device point name -> units. */
  datatype Tables = Tables(aliases: map<string, string>, units: map<string, string>)

  /** Whether a point's raw value is a percentage to be divided by 100. */
  predicate IsPercent(t: Tables, point: string) {
    point in t.units && t.units[point] == "percent"
  }

  /** Scales a raw reading by the point's units. */
  function Scaled(t: Tables, point: string, x: real): (r: real)
    ensures IsPercent(t, point) ==> r * 100.0 == x
    ensures !IsPercent(t, point) ==> r == x
  {
    if IsPercent(t, point) then x / 100.0 else x
  }

  /** The characters of a string as expression symbols. */
  function ToSyms(s: string): (r: seq<Sym>)
    ensures |r| == |s|
    ensures forall i :: 0 <= i < |s| ==> r[i] == C(s[i])
  {
    if s == [] then [] else [C(s[0])] + ToSyms(s[1..])
  }

  /** The keys of an ordered dictionary given as a sequence of pairs. */
  function Keys<V>(d: seq<(string, V)>): (ks: set<string>)
    ensures forall i :: 0 <= i < |d| ==> d[i].0 in ks
    ensures forall k :: k in ks ==> exists i :: 0 <= i < |d| && d[i].0 == k
  {
    if d == [] then {} else {d[0].0} + Keys(d[1..])
  }
}
