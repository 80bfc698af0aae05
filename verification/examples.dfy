/**
 Worked examples on small token streams over distinct species `a`, `b`,
 `c`: the species order of a two-equation set, its matrix, and what
 happens to a species repeated within one equation.
 */
module Examples {
  import opened Wrappers
  import opened Seqs
  import opened Terms
  import opened Matrices
  import opened Assembly

  lemma SumPair(x: real, y: real)
    ensures Sum([x, y]) == x + y
  {
    assert [x, y][..1] == [x];
    assert [x][..0] == [];
    assert Sum([x]) == x;
  }

  /** Registering two distinct species, in order, into an empty list. */
  lemma RegisterTwo(a: Species, b: Species)
    requires a != b
    ensures RegisterAll([], [a, b]) == [a, b]
  {
    assert Register([], a) == [a];
    assert [a, b][1..] == [b];
    assert RegisterAll([], [a, b]) == RegisterAll([a], [b]);
    assert Register([a], b) == [a, b];
    assert [b][1..] == [];
    assert RegisterAll([a], [b]) == RegisterAll([a, b], []);
  }

  /** Registering `b` then `c` into `[a, b]` appends only `c`. */
  lemma RegisterSeenThenNew(a: Species, b: Species, c: Species)
    requires a != c && b != c
    ensures RegisterAll([a, b], [b, c]) == [a, b, c]
  {
    assert Register([a, b], b) == [a, b];
    assert [b, c][1..] == [c];
    assert RegisterAll([a, b], [b, c]) == RegisterAll([a, b], [c]);
    assert Register([a, b], c) == [a, b, c];
    assert [c][1..] == [];
    assert RegisterAll([a, b], [c]) == RegisterAll([a, b, c], []);
  }

  /** The two sides of `a = b` parsed into an empty species list. */
  lemma ParseAB(a: Species, b: Species)
    requires a != b
    ensures ParseSides([Token(None, a)], [Token(None, b)], []) == ([a, b], EqnTerms([-1.0, 1.0], [a, b]))
  {
    assert Coefficients([Token(None, a)], true) == [-1.0];
    assert Coefficients([Token(None, b)], false) == [1.0];
    assert Names([Token(None, a)]) == [a] && Names([Token(None, b)]) == [b];
    assert [-1.0] + [1.0] == [-1.0, 1.0] && [a] + [b] == [a, b];
    RegisterTwo(a, b);
  }

  /** The two sides of `b = c` parsed after `a = b`. */
  lemma ParseBC(a: Species, b: Species, c: Species)
    requires a != c && b != c
    ensures ParseSides([Token(None, b)], [Token(None, c)], [a, b]) == ([a, b, c], EqnTerms([-1.0, 1.0], [b, c]))
  {
    assert Coefficients([Token(None, b)], true) == [-1.0];
    assert Coefficients([Token(None, c)], false) == [1.0];
    assert Names([Token(None, b)]) == [b] && Names([Token(None, c)]) == [c];
    assert [-1.0] + [1.0] == [-1.0, 1.0] && [b] + [c] == [b, c];
    RegisterSeenThenNew(a, b, c);
  }

  /** The matrix of `a = b`, `b = c` (species and terms as `ParseAB` and `ParseBC` give them): columns `[-1, 1, 0]`, `[0, -1, 1]` and sums `[-1, 0, 1]`. */
  lemma MatrixABC(a: Species, b: Species, c: Species)
    requires a != b && b != c && a != c
    ensures SetMat([a, b, c], [EqnTerms([-1.0, 1.0], [a, b]), EqnTerms([-1.0, 1.0], [b, c])])
         == Matrix(3, 3, [[-1.0, 0.0, -1.0], [1.0, -1.0, 0.0], [0.0, 1.0, 1.0]])
  {
    var species := [a, b, c];
    var eqs := [EqnTerms([-1.0, 1.0], [a, b]), EqnTerms([-1.0, 1.0], [b, c])];
    var m := SetMat(species, eqs).cells;
    SetMatCells(species, eqs);
    SetMatRowSum(species, eqs);
    assert LastIndexOf([a, b], a) == 0 && LastIndexOf([a, b], b) == 1;
    assert LastIndexOf([b, c], b) == 0 && LastIndexOf([b, c], c) == 1;
    assert m[0][0] == -1.0 && m[0][1] == 0.0;
    assert m[1][0] == 1.0 && m[1][1] == -1.0;
    assert m[2][0] == 0.0 && m[2][1] == 1.0;
    assert m[0][..2] == [-1.0, 0.0] && m[1][..2] == [1.0, -1.0] && m[2][..2] == [0.0, 1.0];
    SumPair(-1.0, 0.0);
    SumPair(1.0, -1.0);
    SumPair(0.0, 1.0);
    assert m[0] == [-1.0, 0.0, -1.0];
    assert m[1] == [1.0, -1.0, 0.0];
    assert m[2] == [0.0, 1.0, 1.0];
  }

  /** The two sides of `a + a = b` parsed into an empty species list. */
  lemma ParseAAB(a: Species, b: Species)
    requires a != b
    ensures ParseSides([Token(None, a), Token(None, a)], [Token(None, b)], []).1 == EqnTerms([-1.0, -1.0, 1.0], [a, a, b])
  {
    var reac := [Token(None, a), Token(None, a)];
    assert Coefficients(reac, true) == [-1.0, -1.0];
    assert Coefficients([Token(None, b)], false) == [1.0];
    assert Names(reac) == [a, a] && Names([Token(None, b)]) == [b];
    assert [-1.0, -1.0] + [1.0] == [-1.0, -1.0, 1.0] && [a, a] + [b] == [a, a, b];
  }

  /**
   `a + a = b`: the cell of `a` keeps the last term's coefficient, -1, while
   the net coefficient of `a` in the equation is -2.
   */
  lemma RepeatedSpeciesKeepsLastTerm(a: Species, b: Species)
    requires a != b
    ensures var t := ParseSides([Token(None, a), Token(None, a)], [Token(None, b)], []).1;
            && t == EqnTerms([-1.0, -1.0, 1.0], [a, a, b])
            && Stored(t, a) == -1.0 && Net(t.effi, t.chem, a) == -2.0
  {
    ParseAAB(a, b);
    StoredAAB(a, b);
    NetAAB(a, b);
  }

  lemma StoredAAB(a: Species, b: Species)
    requires a != b
    ensures Stored(EqnTerms([-1.0, -1.0, 1.0], [a, a, b]), a) == -1.0
  {
    assert [a, a, b][..2] == [a, a];
    assert LastIndexOf([a, a, b], a) == LastIndexOf([a, a], a) == 1;
  }

  lemma NetAAB(a: Species, b: Species)
    requires a != b
    ensures Net([-1.0, -1.0, 1.0], [a, a, b], a) == -2.0
  {
    assert [-1.0][..0] == [] && [a][..0] == [];
    assert Net([-1.0], [a], a) == -1.0;
    assert [-1.0, -1.0][..1] == [-1.0] && [a, a][..1] == [a];
    assert Net([-1.0, -1.0], [a, a], a) == -2.0;
    assert [-1.0, -1.0, 1.0][..2] == [-1.0, -1.0] && [a, a, b][..2] == [a, a];
  }
}
