/**
 A reaction set (`RxnBase`): one or more equations parsed into a shared,
 first-seen species list and the stoichiometric matrix built from it.
 */
module RxnBase {
  import opened Wrappers
  import opened Seqs
  import opened Matrices
  import opened Equation
  import opened Terms
  import opened Assembly

  /**
   Turns one side string into its `(coefficient, species)` tokens. The pattern
   matcher itself lies outside this model, so it is passed in.
   */
  type Tokenizer = string -> seq<Token>

  /** The stored state of a reaction set and its three getters. */
  datatype ReactionSet = ReactionSet(comment: string, chemIdx: seq<Species>, effiMat: Matrix)
  {
    function GetComment(): string { comment }
    function GetChemIdx(): seq<Species> { chemIdx }
    function GetEffiMat(): Matrix { effiMat }
  }

  /** The default-constructed reaction set: no comment, no species, a 0 × 0 matrix. */
  function Default(): ReactionSet
  {
    ReactionSet("", [], Matrix(0, 0, []))
  }

  /** Species list and per-equation term lists gathered while parsing. */
  datatype Parsed = Parsed(chemIdx: seq<Species>, eqs: seq<EqnTerms>)

  /**
   The terms an equation contributes, given independently of any species list:
   the tokens of the text before its first `=` as reactants, then the tokens
   of the text after it as products.
   */
  function EquationTerms(eqn: string, tokenize: Tokenizer): (t: EqnTerms)
    requires Separator in eqn
    ensures Aligned(t)
  {
    var sides := Split(eqn).value;
    EqnTerms(Coefficients(tokenize(sides.0), true) + Coefficients(tokenize(sides.1), false),
             Names(tokenize(sides.0)) + Names(tokenize(sides.1)))
  }

  /** Every equation has a separator. */
  predicate AllSplit(eqns: seq<string>)
  {
    forall q :: 0 <= q < |eqns| ==> Separator in eqns[q]
  }

  /** A non-empty list is all split when its head and its tail are. */
  lemma AllSplitTail(eqns: seq<string>)
    requires |eqns| > 0
    ensures AllSplit(eqns) <==> Separator in eqns[0] && AllSplit(eqns[1..])
  {
    assert forall q :: 1 <= q < |eqns| ==> eqns[q] == eqns[1..][q - 1];
  }

  /** Past a well-formed head, the first malformed equation is found in the tail. */
  lemma FirstMalformedTail(eqns: seq<string>)
    requires |eqns| > 0 && Separator in eqns[0] && !AllSplit(eqns[1..])
    ensures !AllSplit(eqns)
    ensures eqns[FirstMalformed(eqns)] == eqns[1..][FirstMalformed(eqns[1..])]
  {
    AllSplitTail(eqns);
  }

  /** Position of the first equation without a separator. */
  function FirstMalformed(eqns: seq<string>): (q: nat)
    requires !AllSplit(eqns)
    ensures q < |eqns| && Separator !in eqns[q]
    ensures forall p :: 0 <= p < q ==> Separator in eqns[p]
  {
    if Separator !in eqns[0] then 0
    else
      1 + FirstMalformed(eqns[1..])
  }

  /** The terms of every equation, in order. */
  function AllTerms(eqns: seq<string>, tokenize: Tokenizer): (ts: seq<EqnTerms>)
    requires AllSplit(eqns)
    ensures |ts| == |eqns|
    ensures forall q :: 0 <= q < |eqns| ==> ts[q] == EquationTerms(eqns[q], tokenize)
  {
    if |eqns| == 0 then []
    else
      assert AllSplit(eqns[1..]) by {
        assert forall q :: 1 <= q < |eqns| ==> eqns[q] == eqns[1..][q - 1];
      }
      [EquationTerms(eqns[0], tokenize)] + AllTerms(eqns[1..], tokenize)
  }

  /**
   The species scan of all equations: equations in order and, within each,
   its terms in order (reactants before products).
   */
  function Scan(eqns: seq<string>, tokenize: Tokenizer): seq<Species>
    requires AllSplit(eqns)
  {
    if |eqns| == 0 then []
    else
      assert AllSplit(eqns[1..]) by {
        assert forall q :: 1 <= q < |eqns| ==> eqns[q] == eqns[1..][q - 1];
      }
      EquationTerms(eqns[0], tokenize).chem + Scan(eqns[1..], tokenize)
  }

  /** Every species named by a term of any equation occurs in the scan. */
  lemma {:induction false} ScanContains(eqns: seq<string>, tokenize: Tokenizer, q: nat, k: nat)
    requires AllSplit(eqns) && q < |eqns| && k < |EquationTerms(eqns[q], tokenize).chem|
    ensures EquationTerms(eqns[q], tokenize).chem[k] in Scan(eqns, tokenize)
  {
    if q > 0 {
      assert eqns[q] == eqns[1..][q - 1];
      ScanContains(eqns[1..], tokenize, q - 1, k);
    }
  }

  /**
   Parses `eqns` in order, threading the species list through them (the loop
   of `_setMat` before the matrix is built). The first equation without `=`
   aborts the whole parse with that equation's error.
   */
  function ParseEquations(eqns: seq<string>, tokenize: Tokenizer, chemIdx: seq<Species>): (r: Result<Parsed, Error>)
    ensures r.Err? <==> !AllSplit(eqns)
    ensures r.Err? ==> r.error == MalformedEquation(eqns[FirstMalformed(eqns)])
    ensures r.Ok? ==> r.value.eqs == AllTerms(eqns, tokenize)
    decreases |eqns|
  {
    if |eqns| == 0 then Ok(Parsed(chemIdx, []))
    else
      match Split(eqns[0])
      case Err(e) => Err(e)
      case Ok(sides) =>
        var step := ParseSides(tokenize(sides.0), tokenize(sides.1), chemIdx);
        AllSplitTail(eqns);
        match ParseEquations(eqns[1..], tokenize, step.0)
        case Err(e) =>
          FirstMalformedTail(eqns);
          Err(e)
        case Ok(rest) =>
          assert step.1 == EquationTerms(eqns[0], tokenize);
          Ok(Parsed(rest.chemIdx, [step.1] + rest.eqs))
  }

  /**
   A successful parse extends the species list by registering the species
   scan of the equations, one by one.
   */
  lemma {:induction false} ParseEquationsRegisters(eqns: seq<string>, tokenize: Tokenizer, chemIdx: seq<Species>)
    requires AllSplit(eqns)
    ensures ParseEquations(eqns, tokenize, chemIdx).value.chemIdx == RegisterAll(chemIdx, Scan(eqns, tokenize))
    decreases |eqns|
  {
    if |eqns| > 0 {
      var sides := Split(eqns[0]).value;
      var step := ParseSides(tokenize(sides.0), tokenize(sides.1), chemIdx);
      assert AllSplit(eqns[1..]) by {
        assert forall q :: 1 <= q < |eqns| ==> eqns[q] == eqns[1..][q - 1];
      }
      ParseEquationsRegisters(eqns[1..], tokenize, step.0);
      RegisterAllAppend(chemIdx, step.1.chem, Scan(eqns[1..], tokenize));
    }
  }

  /** All equations parsed from scratch. */
  function Parse(eqns: seq<string>, tokenize: Tokenizer): (r: Result<Parsed, Error>)
    ensures r.Err? <==> !AllSplit(eqns)
    ensures r.Err? ==> r.error == MalformedEquation(eqns[FirstMalformed(eqns)])
    ensures r.Ok? ==> r.value.eqs == AllTerms(eqns, tokenize)
    ensures r.Ok? ==> r.value.chemIdx == RegisterAll([], Scan(eqns, tokenize))
    ensures r.Ok? ==> WellFormed(r.value.chemIdx, r.value.eqs)
  {
    var r := ParseEquations(eqns, tokenize, []);
    if r.Ok? then
      ParseEquationsRegisters(eqns, tokenize, []);
      SpeciesListProperties(eqns, tokenize);
      r
    else r
  }

  /**
   The species list built from all equations lists each species of the scan
   once, in first-seen order, and holds every species any term names.
   */
  lemma SpeciesListProperties(eqns: seq<string>, tokenize: Tokenizer)
    requires AllSplit(eqns)
    ensures var chemIdx := RegisterAll([], Scan(eqns, tokenize));
            FirstSeen(chemIdx, Scan(eqns, tokenize)) && WellFormed(chemIdx, AllTerms(eqns, tokenize))
  {
    var scan := Scan(eqns, tokenize);
    var eqs := AllTerms(eqns, tokenize);
    var chemIdx := RegisterAll([], scan);
    FirstSeenFromScratch(scan);
    forall j | 0 <= j < |eqs|
      ensures Aligned(eqs[j]) && AllIn(eqs[j].chem, chemIdx)
    {
      forall k | 0 <= k < |eqs[j].chem|
        ensures eqs[j].chem[k] in chemIdx
      {
        ScanContains(eqns, tokenize, j, k);
      }
    }
  }

  /**
   Builds a reaction set from a list of equations and an optional comment
   (the constructors taking `eqnVec`): parse everything, then assemble. The
   first equation without `=` makes construction fail with its error.
   */
  function FromEquations(eqns: seq<string>, tokenize: Tokenizer, comment: string := ""): (r: Result<ReactionSet, Error>)
    ensures r.Err? <==> !AllSplit(eqns)
    ensures r.Err? ==> r.error == MalformedEquation(eqns[FirstMalformed(eqns)])
    ensures r.Ok? ==> r.value.GetComment() == comment
    ensures r.Ok? ==> var m := r.value.GetEffiMat();
                      m.Valid() && m.rows == |r.value.GetChemIdx()| && m.cols == |eqns| + 1
  {
    var parsed := Parse(eqns, tokenize);
    if parsed.Err? then Err(parsed.error)
    else
      var p := parsed.value;
      Ok(ReactionSet(comment, p.chemIdx, SetMat(p.chemIdx, p.eqs)))
  }

  /**
   The species of a successfully built reaction set are those of the scan,
   each once, in first-seen order; so every species a term names has a row.
   */
  lemma FromEquationsSpecies(eqns: seq<string>, tokenize: Tokenizer, comment: string)
    requires AllSplit(eqns)
    ensures FromEquations(eqns, tokenize, comment).Ok?
    ensures FirstSeen(FromEquations(eqns, tokenize, comment).value.chemIdx, Scan(eqns, tokenize))
  {
    FirstSeenFromScratch(Scan(eqns, tokenize));
  }

  /**
   The matrix of a successfully built reaction set: a row per species and a
   column per equation plus one; cell `(i, j)` is what equation `j` stores
   for species `i` (0 if it does not name it, else the coefficient of its
   last term naming it); and the last column is each row's sum.
   */
  lemma FromEquationsMatrix(eqns: seq<string>, tokenize: Tokenizer, comment: string)
    requires AllSplit(eqns)
    ensures var r := FromEquations(eqns, tokenize, comment);
            && r.Ok?
            && r.value.effiMat.Valid()
            && r.value.effiMat.rows == |r.value.chemIdx| && r.value.effiMat.cols == |eqns| + 1
            && (forall i, j :: 0 <= i < |r.value.chemIdx| && 0 <= j < |eqns| ==>
                  r.value.effiMat.cells[i][j] == Stored(EquationTerms(eqns[j], tokenize), r.value.chemIdx[i]))
            && (forall i :: 0 <= i < |r.value.chemIdx| ==>
                  r.value.effiMat.cells[i][|eqns|] == Sum(r.value.effiMat.cells[i][..|eqns|]))
  {
    var p := Parse(eqns, tokenize).value;
    SetMatCells(p.chemIdx, p.eqs);
    SetMatRowSum(p.chemIdx, p.eqs);
  }

  /** Builds a reaction set from a single equation (the constructors taking `eqn`). */
  function FromEquation(eqn: string, tokenize: Tokenizer, comment: string := ""): (r: Result<ReactionSet, Error>)
    ensures r.Err? <==> Separator !in eqn
    ensures r.Err? ==> r.error == MalformedEquation(eqn)
    ensures r.Ok? ==> r.value.GetComment() == comment
    ensures r.Ok? ==> var m := r.value.GetEffiMat();
                      m.Valid() && m.rows == |r.value.GetChemIdx()| && m.cols == 2
  {
    FromEquations([eqn], tokenize, comment)
  }

  /** With a single equation, the sum column repeats the equation's column. */
  lemma SingleEquationSumColumn(eqn: string, tokenize: Tokenizer, comment: string)
    requires Separator in eqn
    ensures var r := FromEquation(eqn, tokenize, comment);
            r.Ok? && forall i :: 0 <= i < |r.value.chemIdx| ==> r.value.effiMat.cells[i][1] == r.value.effiMat.cells[i][0]
  {
    var p := Parse([eqn], tokenize).value;
    SetMatRowSum(p.chemIdx, p.eqs);
    var m := SetMat(p.chemIdx, p.eqs).cells;
    forall i | 0 <= i < |p.chemIdx|
      ensures m[i][1] == m[i][0]
    {
      SumFirst(m[i]);
    }
  }

  /**
   An empty list of equations builds a matrix with no rows and one column
   (the sum column), which is not the 0 × 0 matrix of the default
   constructor.
   */
  lemma EmptyListShape(tokenize: Tokenizer, comment: string)
    ensures var r := FromEquations([], tokenize, comment);
            && r.Ok?
            && r.value.GetChemIdx() == []
            && r.value.GetEffiMat().rows == 0 && r.value.GetEffiMat().cols == 1
            && r.value.GetEffiMat() != Default().GetEffiMat()
  {
    assert AllSplit([]);
    assert Scan([], tokenize) == [];
    assert RegisterAll<Species>([], []) == [];
  }

  /**
   An equation whose sides yield no terms (such as `"="`) builds a matrix
   with no rows and two columns.
   */
  lemma NoTermsShape(eqn: string, tokenize: Tokenizer)
    requires Separator in eqn
    requires tokenize(Split(eqn).value.0) == [] && tokenize(Split(eqn).value.1) == []
    ensures var r := FromEquation(eqn, tokenize);
            && r.Ok?
            && r.value.GetChemIdx() == []
            && r.value.GetEffiMat().rows == 0 && r.value.GetEffiMat().cols == 2
  {
    var t := EquationTerms(eqn, tokenize);
    assert t.chem == [];
    assert [eqn][1..] == [];
    assert Scan([eqn], tokenize) == t.chem + Scan([], tokenize);
    assert RegisterAll<Species>([], []) == [];
  }
}
