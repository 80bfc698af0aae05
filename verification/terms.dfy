/**
 Parsing one side of one equation (`_parseTerm`): each token becomes a signed
 coefficient and a species, and new species are registered in first-seen order.
 */
module Terms {
  import opened Wrappers
  import opened Seqs

  /** A chemical species, identified by its name. */
  type Species = string

  /**
   One `(coefficient, species)` match of a side string. `coef` is `None` when
   the coefficient text is empty and otherwise the number it spells.
   */
  datatype Token = Token(coef: Option<real>, name: Species)

  /**
   The coefficients and species of one equation, index-aligned: `effi[k]` is
   the signed coefficient of the term naming `chem[k]`.
   */
  datatype EqnTerms = EqnTerms(effi: seq<real>, chem: seq<Species>)

  predicate Aligned(t: EqnTerms)
  {
    |t.effi| == |t.chem|
  }

  /** Sign convention: reactants count negative, products positive. */
  function Sign(reactant: bool): real
  {
    if reactant then -1.0 else 1.0
  }

  /** The unsigned amount a token spells; an empty coefficient means one. */
  function Magnitude(t: Token): real
  {
    match t.coef
    case None => 1.0
    case Some(v) => v
  }

  /** The coefficient recorded for token `t` on the side given by `reactant`. */
  function SignedCoefficient(t: Token, reactant: bool): (c: real)
    ensures reactant ==> c == -Magnitude(t)
    ensures !reactant ==> c == Magnitude(t)
    ensures Magnitude(t) > 0.0 ==> (reactant <==> c < 0.0) && (!reactant <==> c > 0.0)
  {
    match t.coef
    case None => Sign(reactant)
    case Some(v) => Sign(reactant) * v
  }

  /** The species named by each token, in token order. */
  function Names(tokens: seq<Token>): (names: seq<Species>)
    ensures |names| == |tokens|
    ensures forall k :: 0 <= k < |tokens| ==> names[k] == tokens[k].name
  {
    if |tokens| == 0 then [] else [tokens[0].name] + Names(tokens[1..])
  }

  /** The signed coefficient of each token, in token order. */
  function Coefficients(tokens: seq<Token>, reactant: bool): (effi: seq<real>)
    ensures |effi| == |tokens|
    ensures forall k :: 0 <= k < |tokens| ==> effi[k] == SignedCoefficient(tokens[k], reactant)
  {
    if |tokens| == 0 then [] else [SignedCoefficient(tokens[0], reactant)] + Coefficients(tokens[1..], reactant)
  }

  /**
   Consumes `tokens` left to right: each yields its signed coefficient and
   its species, index-aligned, and registers the species in `chemIdx` when it
   is not there yet. Returns the updated species list and the side's terms,
   which the caller appends to the equation's lists.
   */
  function ParseTerm(tokens: seq<Token>, reactant: bool, chemIdx: seq<Species>): (r: (seq<Species>, EqnTerms))
    ensures |r.1.effi| == |tokens| && |r.1.chem| == |tokens|
    ensures r.1.effi == Coefficients(tokens, reactant)
    ensures r.1.chem == Names(tokens)
    decreases |tokens|
  {
    if |tokens| == 0 then (chemIdx, EqnTerms([], []))
    else
      var t := tokens[0];
      var rest := ParseTerm(tokens[1..], reactant, Register(chemIdx, t.name));
      (rest.0, EqnTerms([SignedCoefficient(t, reactant)] + rest.1.effi, [t.name] + rest.1.chem))
  }

  /**
   The species list after a side is parsed is the list before it with the
   side's species registered one by one, in token order.
   */
  lemma {:induction false} ParseTermRegisters(tokens: seq<Token>, reactant: bool, chemIdx: seq<Species>)
    ensures ParseTerm(tokens, reactant, chemIdx).0 == RegisterAll(chemIdx, Names(tokens))
    decreases |tokens|
  {
    if |tokens| > 0 {
      ParseTermRegisters(tokens[1..], reactant, Register(chemIdx, tokens[0].name));
    }
  }

  /**
   Parses a whole equation given its two token streams: the reactant side
   first (negative), then the product side (positive), into fresh term lists.
   */
  function ParseSides(reac: seq<Token>, prod: seq<Token>, chemIdx: seq<Species>): (r: (seq<Species>, EqnTerms))
    ensures |r.1.effi| == |r.1.chem| == |reac| + |prod|
    ensures r.1.effi == Coefficients(reac, true) + Coefficients(prod, false)
    ensures r.1.chem == Names(reac) + Names(prod)
    ensures r.0 == RegisterAll(chemIdx, r.1.chem)
  {
    var r1 := ParseTerm(reac, true, chemIdx);
    var r2 := ParseTerm(prod, false, r1.0);
    ParseTermRegisters(reac, true, chemIdx);
    ParseTermRegisters(prod, false, r1.0);
    RegisterAllAppend(chemIdx, Names(reac), Names(prod));
    (r2.0, EqnTerms(r1.1.effi + r2.1.effi, r1.1.chem + r2.1.chem))
  }
}
