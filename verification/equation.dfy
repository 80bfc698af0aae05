/**
 Splitting one reaction equation `<reactants> = <products>` at its separator.
 The split is at the first `=`; any later `=` stays in the product side.
 */
module Equation {
  import opened Wrappers

  /** The character between the reactant side and the product side. */
  const Separator: char := '='

  /** Why building a reaction set failed. */
  datatype Error = MalformedEquation(eqn: string)  // the equation has no separator

  /** Position of the first `c` in `s`, or `None` when `s` has none (`std::string::find`). */
  function FindFirst(s: string, c: char): (r: Option<nat>)
    ensures r.None? <==> c !in s
    ensures r.Some? ==> r.value < |s| && s[r.value] == c
    ensures r.Some? ==> forall k :: 0 <= k < r.value ==> s[k] != c
  {
    if |s| == 0 then None
    else if s[0] == c then Some(0)
    else
      match FindFirst(s[1..], c)
      case None => None
      case Some(k) => Some(k + 1)
  }

  /**
   Splits `eqn` into its reactant side (everything before the first `=`) and
   its product side (everything after it); an equation without `=` is an error.
   */
  function Split(eqn: string): (r: Result<(string, string), Error>)
    ensures r.Err? <==> Separator !in eqn
    ensures r.Err? ==> r.error == MalformedEquation(eqn)
    ensures r.Ok? ==> Separator !in r.value.0 && eqn == r.value.0 + [Separator] + r.value.1
  {
    match FindFirst(eqn, Separator)
    case None => Err(MalformedEquation(eqn))
    case Some(k) =>
      assert eqn == eqn[..k] + [Separator] + eqn[k + 1..];
      Ok((eqn[..k], eqn[k + 1..]))
  }

  /**
   Joining two sides with `=` and splitting again gives the sides back, as long
   as the reactant side holds no `=` of its own.
   */
  lemma SplitJoin(reac: string, prod: string)
    requires Separator !in reac
    ensures Split(reac + [Separator] + prod) == Ok((reac, prod))
  {
    var eqn := reac + [Separator] + prod;
    assert eqn[|reac|] == Separator;
    var r := Split(eqn);
    var (a, b) := r.value;
    assert |a| == |reac|;
    assert a == eqn[..|reac|] == reac;
    assert b == eqn[|reac| + 1..] == prod;
  }
}
