/**
 Assembling the stoichiometric matrix (`_setMat`, after parsing): one row per
 registered species, one column per equation, and a final column holding each
 row's sum.
 */
module Assembly {
  import opened Seqs
  import opened Matrices
  import opened Terms

  /**
   What assembly relies on: the species list has no repeats, and every
   equation's term lists are aligned and name registered species only.
   */
  predicate WellFormed(species: seq<Species>, eqs: seq<EqnTerms>)
  {
    && NoDuplicates(species)
    && forall j :: 0 <= j < |eqs| ==> Aligned(eqs[j]) && AllIn(eqs[j].chem, species)
  }

  /**
   The value the source leaves in the cell of species `x` for an equation with
   terms `t`: each term overwrites the cell, so the coefficient of the LAST term
   naming `x` wins; a species the equation does not name keeps 0.
   */
  function Stored(t: EqnTerms, x: Species): real
    requires Aligned(t)
  {
    if x in t.chem then t.effi[LastIndexOf(t.chem, x)] else 0.0
  }

  /**
   The net coefficient of `x`: the sum of the coefficients of every term
   naming it. This is what an accumulating assembly would store.
   */
  function Net(effi: seq<real>, chem: seq<Species>, x: Species): real
    requires |effi| == |chem|
  {
    if |chem| == 0 then 0.0
    else Net(effi[..|effi| - 1], chem[..|chem| - 1], x) + (if chem[|chem| - 1] == x then effi[|effi| - 1] else 0.0)
  }

  /**
   Writes the first `n` terms of `t` into column `j`, in term order, each one
   overwriting the cell of its species' row (the inner loop of the placement).
   */
  function PlaceTerms(m: Cells, species: seq<Species>, t: EqnTerms, j: nat, n: nat, cols: nat): (m': Cells)
    requires IsShape(m, |species|, cols) && j < cols
    requires Aligned(t) && AllIn(t.chem, species) && n <= |t.chem|
    ensures IsShape(m', |species|, cols)
    ensures forall i, c :: 0 <= i < |species| && 0 <= c < cols && c != j ==> m'[i][c] == m[i][c]
    decreases n
  {
    if n == 0 then m
    else Set(PlaceTerms(m, species, t, j, n - 1, cols), IndexOf(species, t.chem[n - 1]), j, t.effi[n - 1])
  }

  /** Extending a prefix by an element other than `x` does not change where `x` last occurs. */
  lemma LastIndexOfSnoc(s: seq<Species>, n: nat, x: Species)
    requires 0 < n <= |s| && s[n - 1] != x
    ensures x in s[..n] <==> x in s[..n - 1]
    ensures x in s[..n - 1] ==> LastIndexOf(s[..n], x) == LastIndexOf(s[..n - 1], x)
  {
    assert s[..n] == s[..n - 1] + [s[n - 1]];
    assert s[..n][..n - 1] == s[..n - 1];
  }

  /**
   After the first `n` terms are placed, the cell of species `species[i]` in
   column `j` holds the coefficient of the last of those terms naming it, and
   is untouched when none does.
   */
  lemma {:induction false} PlaceTermsCell(m: Cells, species: seq<Species>, t: EqnTerms, j: nat, n: nat, cols: nat, i: nat)
    requires IsShape(m, |species|, cols) && j < cols
    requires Aligned(t) && AllIn(t.chem, species) && n <= |t.chem|
    requires NoDuplicates(species) && i < |species|
    ensures PlaceTerms(m, species, t, j, n, cols)[i][j]
         == if species[i] in t.chem[..n] then t.effi[LastIndexOf(t.chem[..n], species[i])] else m[i][j]
    decreases n
  {
    if n > 0 {
      var x := species[i];
      PlaceTermsCell(m, species, t, j, n - 1, cols, i);
      if t.chem[n - 1] == x {
        IndexOfDistinct(species, i);
        assert t.chem[..n][n - 1] == x;
      } else {
        assert IndexOf(species, t.chem[n - 1]) != i;
        LastIndexOfSnoc(t.chem, n, x);
      }
    }
  }

  /** Places equations `0 .. k-1`, equation `j` into column `j` (the outer loop). */
  function PlaceEquations(m: Cells, species: seq<Species>, eqs: seq<EqnTerms>, k: nat, cols: nat): (m': Cells)
    requires IsShape(m, |species|, cols) && k <= |eqs| && k <= cols
    requires WellFormed(species, eqs)
    ensures IsShape(m', |species|, cols)
    ensures forall i, c :: 0 <= i < |species| && k <= c < cols ==> m'[i][c] == m[i][c]
    decreases k
  {
    if k == 0 then m
    else PlaceTerms(PlaceEquations(m, species, eqs, k - 1, cols), species, eqs[k - 1], k - 1, |eqs[k - 1].chem|, cols)
  }

  /** Column `c` of a placed matrix holds what equation `c` stores for each species. */
  lemma {:induction false} PlaceEquationsCell(m: Cells, species: seq<Species>, eqs: seq<EqnTerms>, k: nat, cols: nat, i: nat, c: nat)
    requires IsShape(m, |species|, cols) && k <= |eqs| && k <= cols
    requires WellFormed(species, eqs)
    requires i < |species| && c < k
    ensures PlaceEquations(m, species, eqs, k, cols)[i][c]
         == if species[i] in eqs[c].chem then Stored(eqs[c], species[i]) else m[i][c]
    decreases k
  {
    var p := PlaceEquations(m, species, eqs, k - 1, cols);
    if c == k - 1 {
      var t := eqs[c];
      PlaceTermsCell(p, species, t, c, |t.chem|, cols, i);
      assert t.chem[..|t.chem|] == t.chem;
    } else {
      PlaceEquationsCell(m, species, eqs, k - 1, cols, i, c);
    }
  }

  /** Fills the last column of every row with the sum of that whole row. */
  function FillSums(m: Cells, rows: nat, cols: nat): (m': Cells)
    requires IsShape(m, rows, cols) && cols > 0
    ensures IsShape(m', rows, cols)
    ensures forall i, c :: 0 <= i < rows && 0 <= c < cols - 1 ==> m'[i][c] == m[i][c]
    ensures forall i :: 0 <= i < rows ==> m'[i][cols - 1] == Sum(m[i])
  {
    seq(rows, i requires 0 <= i < rows => m[i][cols - 1 := Sum(m[i])])
  }

  /**
   The whole assembly: a zero matrix of |species| rows and |eqs|+1 columns,
   every equation placed in its column, then the sum column filled in.
   */
  function SetMat(species: seq<Species>, eqs: seq<EqnTerms>): (m: Matrix)
    requires WellFormed(species, eqs)
    ensures m.rows == |species| && m.cols == |eqs| + 1 && m.Valid()
  {
    var cols := |eqs| + 1;
    Matrix(|species|, cols, FillSums(PlaceEquations(Zero(|species|, cols).cells, species, eqs, |eqs|, cols), |species|, cols))
  }

  /**
   Cell `(i, j)` of the assembled matrix, for an equation column `j`, is what
   equation `j` stores for species `i`: 0 when it does not name it, otherwise
   the coefficient of its last term naming it.
   */
  lemma SetMatCells(species: seq<Species>, eqs: seq<EqnTerms>)
    requires WellFormed(species, eqs)
    ensures forall i, j :: 0 <= i < |species| && 0 <= j < |eqs| ==> SetMat(species, eqs).cells[i][j] == Stored(eqs[j], species[i])
  {
    var cols := |eqs| + 1;
    var z := Zero(|species|, cols).cells;
    forall i, j | 0 <= i < |species| && 0 <= j < |eqs|
      ensures SetMat(species, eqs).cells[i][j] == Stored(eqs[j], species[i])
    {
      PlaceEquationsCell(z, species, eqs, |eqs|, cols, i, j);
    }
  }

  /**
   The last column of every row equals the sum of that row's equation columns.
   It holds because the last column is still zero when the row is summed.
   */
  lemma SetMatRowSum(species: seq<Species>, eqs: seq<EqnTerms>)
    requires WellFormed(species, eqs)
    ensures forall i :: 0 <= i < |species| ==> SetMat(species, eqs).cells[i][|eqs|] == Sum(SetMat(species, eqs).cells[i][..|eqs|])
  {
    var n := |eqs|;
    var cols := n + 1;
    var p := PlaceEquations(Zero(|species|, cols).cells, species, eqs, n, cols);
    var m := SetMat(species, eqs).cells;
    forall i | 0 <= i < |species|
      ensures m[i][n] == Sum(m[i][..n])
    {
      SumTrailingZero(p[i], n);
      assert m[i][..n] == p[i][..n];
    }
  }

  /** Without repeated species in an equation, the overwriting store equals the net coefficient. */
  lemma {:induction false} StoredIsNetWhenDistinct(effi: seq<real>, chem: seq<Species>, x: Species)
    requires |effi| == |chem| && NoDuplicates(chem)
    ensures Stored(EqnTerms(effi, chem), x) == Net(effi, chem, x)
  {
    if |chem| > 0 {
      var n := |chem| - 1;
      var effi', chem' := effi[..n], chem[..n];
      StoredIsNetWhenDistinct(effi', chem', x);
      if chem[n] == x {
        assert x !in chem' by {
          assert forall k :: 0 <= k < n ==> chem'[k] == chem[k] != chem[n];
        }
        NetAbsent(effi', chem', x);
        assert LastIndexOf(chem, x) == n;
      } else if x in chem {
        assert x in chem' by {
          var k :| 0 <= k < |chem| && chem[k] == x;
          assert chem'[k] == x;
        }
        var k := LastIndexOf(chem', x);
        assert LastIndexOf(chem, x) == k;
        assert effi[k] == effi'[k];
      } else {
        assert x !in chem';
      }
    }
  }

  /** A species an equation does not name has net coefficient 0. */
  lemma {:induction false} NetAbsent(effi: seq<real>, chem: seq<Species>, x: Species)
    requires |effi| == |chem| && x !in chem
    ensures Net(effi, chem, x) == 0.0
  {
    if |chem| > 0 {
      NetAbsent(effi[..|effi| - 1], chem[..|chem| - 1], x);
    }
  }
}
