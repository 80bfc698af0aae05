# RxnBase in Dafny

A model of `RxnBase`, the base class of ChemProcessHelper that turns chemical
equations written as text (`"2H2 + O2 = 2H2O"`) into a stoichiometric
matrix. A reaction set holds three things: a comment, the species list
(`_ChemIdx`) and the matrix (`_EffiMat`). The matrix has one row per species
and one column per equation. Its extra last column holds the sum of the row's
stored cells.

Building a reaction set works in three steps:

- **Split.** Each equation is split at its first `=`. An equation without
  `=` makes construction fail.
- **Parse.** Each side is read as `(coefficient, species)` terms. Reactants
  are negative and products positive, and an empty coefficient counts as 1.
  A species is appended to the species list when it is seen for the first
  time.
- **Assemble.** A zero matrix is allocated, every term is written into its
  species' row and its equation's column, and the sum column is filled in.

Modules, one per concern:

| file | module | models |
|---|---|---|
| `wrappers.dfy` | `Wrappers` | `Option`, `Result` |
| `seqs.dfy` | `Seqs` | membership and position lookups, registration in first-seen order, `Sum` |
| `equation.dfy` | `Equation` | splitting an equation at its first `=` |
| `matrix.dfy` | `Matrices` | dense real matrices with their dimensions: zero, shape, single-cell update |
| `terms.dfy` | `Terms` | `_parseTerm`: signed coefficients and species registration |
| `assembly.dfy` | `Assembly` | the matrix-building half of `_setMat` |
| `rxnbase.dfy` | `RxnBase` | the parsing loop of `_setMat`, the constructors and getters |
| `examples.dfy` | `Examples` | small worked equations: `a = b, b = c` and `a + a = b` |

Modelling choices:

- A species is identified by its name (`string`). The source identifies it
  by a `ChemBase*` handle looked up by name, so the two notions of identity
  coincide.
- The regular-expression tokenizer is a parameter (`RxnBase.Tokenizer`). It
  maps a side's text to a sequence of `Terms.Token`. A token's coefficient is
  `None` when the coefficient text is empty and `Some(v)` otherwise.
- Coefficients are `real`.
- A constructor that throws is modelled as a function returning
  `Result<ReactionSet, Error>`. The four equation constructors are
  `RxnBase.FromEquations` and `RxnBase.FromEquation`, each with an optional
  comment (default `""`). The default constructor is `RxnBase.Default()`: an
  empty comment, no species and a 0 × 0 matrix. The getters are
  `ReactionSet.GetComment`, `GetChemIdx` and `GetEffiMat`.
- A matrix (`Matrices.Matrix`) records its row and column counts next to its
  cells. So a matrix without rows still has a column count, as an Eigen
  matrix does: an empty equation list gives 0 × 1 and an equation with no
  terms gives 0 × 2, while the default constructor gives 0 × 0.
- A failed construction carries `MalformedEquation(eqn)`, naming the first
  equation without `=`. The source throws a `std::runtime_error` with one
  fixed message (line 66), so the equation in the error is the model's own
  addition. What the source does fix is where the throw happens: at the
  first equation without `=`, after the earlier ones were parsed.

**Matrix assembly overwrites.** An accumulating assembly would add the
coefficients of every term naming a species (`Assembly.Net`). Line 94
assigns instead (`_EffiMat(i, j) = ...`), so later terms overwrite earlier
ones. This model follows the code:

- When an equation names a species more than once (`A + A = B`, or a
  catalyst on both sides), the cell holds the coefficient of the last such
  term (`Assembly.Stored`).
- `Assembly.StoredIsNetWhenDistinct` proves the two readings agree whenever
  no species repeats within an equation.
- `Examples.RepeatedSpeciesKeepsLastTerm` shows them differ on `a + a = b`:
  the cell is -1 while the net coefficient is -2.

## Model

All source paths are in `core/CoreBase/RxnBase.hpp`.

| member | source | states |
|---|---|---|
| Terms.SignedCoefficient | core/CoreBase/RxnBase.hpp:41-47 | a reactant term's value is minus its magnitude and a product term's is plus it; an empty coefficient has magnitude 1; for a positive magnitude the sign is negative exactly for reactants |
| Terms.Coefficients | core/CoreBase/RxnBase.hpp:45-47 | one signed coefficient per token, in token order, each the token's `SignedCoefficient` |
| Terms.Names | core/CoreBase/RxnBase.hpp:48-51 | one species per token, in token order |
| Terms.ParseTerm | core/CoreBase/RxnBase.hpp:38-53 | a side yields as many coefficients as species (the lists stay aligned): coefficient k is token k's signed coefficient and species k is token k's species |
| Terms.ParseTermRegisters | core/CoreBase/RxnBase.hpp:48-50 | after a side, the species list is the old list with the side's species registered one at a time in token order |
| Terms.ParseSides | core/CoreBase/RxnBase.hpp:71-78 | an equation's terms are the reactant side's (negative) followed by the product side's (positive), aligned; the species list afterwards is the old one with all of those species registered in order |
| Seqs.Register | core/CoreBase/RxnBase.hpp:50 | registering appends a species exactly when it is absent; the list keeps its prefix and stays free of duplicates; afterwards it contains exactly the old species plus the new one |
| Seqs.FirstSeenRegister | core/CoreBase/RxnBase.hpp:50 | registering the next scanned species keeps the list equal to the scan's distinct species in order of first appearance |
| Seqs.RegisterAll | core/CoreBase/RxnBase.hpp:45-51 | registering a run of species keeps the existing list as a prefix and keeps it free of duplicates |
| Seqs.RegisterAllAppend | core/CoreBase/RxnBase.hpp:75-78 | registering two runs one after the other is the same as registering their concatenation |
| Seqs.FirstSeenRegisterAll | core/CoreBase/RxnBase.hpp:45-51 | registering a run keeps a first-seen list first-seen for the extended scan |
| Seqs.FirstSeenFromScratch | core/CoreBase/RxnBase.hpp:63-81 | starting from an empty list, the species list is the scan's distinct species in order of first appearance |
| Seqs.IndexOf | core/CoreBase/RxnBase.hpp:93 | the row found for a registered species holds that species, and no earlier row does |
| Seqs.LastIndexOf | core/CoreBase/RxnBase.hpp:91-94 | gives the position of the last occurrence: it holds the element and no later position does |
| Equation.FindFirst | core/CoreBase/RxnBase.hpp:65 | the search fails exactly when the character is absent; otherwise the position found holds it and no earlier position does |
| Equation.Split | core/CoreBase/RxnBase.hpp:65-69 | splitting fails, with that equation's error, exactly when there is no `=`; otherwise the reactant text has no `=` and reactant text, `=` and product text rebuild the equation |
| Equation.SplitJoin | core/CoreBase/RxnBase.hpp:65-69 | joining a reactant text without `=` and any product text with `=` and splitting again gives back both texts |
| Matrices.Zero | core/CoreBase/RxnBase.hpp:83-84 | the freshly sized matrix records the requested rows and columns, its cells have that shape, and every cell is 0 |
| Matrices.Set | core/CoreBase/RxnBase.hpp:94 | writing one cell changes that cell to the given value and leaves the shape and every other cell unchanged |
| Assembly.PlaceTerms | core/CoreBase/RxnBase.hpp:91-95 | placing an equation's terms keeps the shape and leaves every other column unchanged |
| Assembly.PlaceTermsCell | core/CoreBase/RxnBase.hpp:91-95 | after the first n terms are placed, a species' cell holds the coefficient of the last of those terms that names it, and is unchanged if none does |
| Assembly.PlaceEquations | core/CoreBase/RxnBase.hpp:86-96 | placing the first k equations keeps the shape and leaves columns k and beyond unchanged |
| Assembly.PlaceEquationsCell | core/CoreBase/RxnBase.hpp:86-96 | after placement, column c of a species' row holds what equation c stores for it, and is unchanged if equation c does not name it |
| Assembly.FillSums | core/CoreBase/RxnBase.hpp:99-102 | filling the last column keeps the shape and the other columns; each row's last cell becomes the sum of the row as it was |
| Assembly.SetMat | core/CoreBase/RxnBase.hpp:83-102 | the assembled matrix has one row per species and one column per equation plus one, also when there are no species |
| Assembly.SetMatCells | core/CoreBase/RxnBase.hpp:83-96 | cell (i, j) of an equation column is 0 when equation j does not name species i, and otherwise the coefficient of its last term naming it |
| Assembly.SetMatRowSum | core/CoreBase/RxnBase.hpp:99-102 | the last cell of each row equals the sum of that row's equation columns |
| Assembly.StoredIsNetWhenDistinct | core/CoreBase/RxnBase.hpp:94 | when no species repeats within an equation, the value the assignment leaves equals the species' net (summed) coefficient |
| Assembly.NetAbsent | core/CoreBase/RxnBase.hpp:84 | a species an equation does not name has net coefficient 0 |
| RxnBase.EquationTerms | core/CoreBase/RxnBase.hpp:68-78 | an equation's terms (reactant tokens, then product tokens) are aligned |
| RxnBase.FirstMalformed | core/CoreBase/RxnBase.hpp:63-66 | the failing equation is the first one without `=`: it lacks `=` and every equation before it has one |
| RxnBase.AllTerms | core/CoreBase/RxnBase.hpp:63-81 | one term list per equation, in order, each that equation's terms |
| RxnBase.ScanContains | core/CoreBase/RxnBase.hpp:50-51 | every species named by any term of any equation occurs in the species scan |
| RxnBase.ParseEquations | core/CoreBase/RxnBase.hpp:63-81 | the parse fails exactly when some equation lacks `=`, at the first such equation; on success each equation's terms are recorded in order |
| RxnBase.ParseEquationsRegisters | core/CoreBase/RxnBase.hpp:63-81 | a successful parse leaves the species list extended by registering the whole species scan in order |
| RxnBase.Parse | core/CoreBase/RxnBase.hpp:56-81 | parsing from scratch fails exactly on a missing `=`; on success the species list has no duplicates and every term names a listed species |
| RxnBase.SpeciesListProperties | core/CoreBase/RxnBase.hpp:45-51 | the species list is the scan's distinct species in first-seen order, has no duplicates, and holds every species any term names |
| RxnBase.FromEquations | core/CoreBase/RxnBase.hpp:123-132 | construction from a list fails exactly when some equation lacks `=`, at the first such equation; on success it keeps the comment and the matrix records \|species\| rows and \|equations\| + 1 columns, even with no species |
| RxnBase.FromEquationsSpecies | core/CoreBase/RxnBase.hpp:56-81 | when every equation has `=`, construction succeeds and its species list is the scan's distinct species in first-seen order |
| RxnBase.FromEquationsMatrix | core/CoreBase/RxnBase.hpp:56-102 | when every equation has `=`, construction succeeds; cell (i, j) is what equation j stores for species i; the last column is each row's sum |
| RxnBase.FromEquation | core/CoreBase/RxnBase.hpp:112-121 | construction from one equation fails exactly when it has no `=`; on success it keeps the comment and the matrix records one row per species and two columns, even with no species |
| RxnBase.SingleEquationSumColumn | core/CoreBase/RxnBase.hpp:99-102 | with a single equation, the sum column repeats the equation's column |
| RxnBase.EmptyListShape | core/CoreBase/RxnBase.hpp:83 | an empty equation list builds a reaction set with no species and a 0 × 1 matrix, which differs from the default constructor's 0 × 0 matrix (line 110) |
| RxnBase.NoTermsShape | core/CoreBase/RxnBase.hpp:83 | an equation whose sides yield no terms builds a reaction set with no species and a 0 × 2 matrix |
| Examples.RepeatedSpeciesKeepsLastTerm | core/CoreBase/RxnBase.hpp:91-94 | for `a + a = b` the cell of `a` is -1, the last term's coefficient, while the net coefficient is -2 |
| Examples.MatrixABC | core/CoreBase/RxnBase.hpp:83-102 | the matrix of `a = b`, `b = c` over species `[a, b, c]` has columns `[-1, 1, 0]`, `[0, -1, 1]` and sums `[-1, 0, 1]` |
| Examples.ParseBC | core/CoreBase/RxnBase.hpp:50 | parsing `b = c` after `a = b` appends only the new species `c` |

## Left out

- RxnBase.FromEquations, RxnBase.FromEquation, RxnBase.ParseEquations and
  Equation.Split: the error names the first equation without `=`. The source
  throws one fixed `std::runtime_error` message for every equation (line
  66). The equation in the error is the model's own addition, so these
  contracts say more than the source's message does. Only the position of
  the throw is the source's: the first equation without `=`.
- The regular-expression tokenizer (`functions::_RegexIter` with
  `const_variables::pat_big`) is not part of this model. It is a parameter,
  and tokens arrive with their coefficient text already read as a number.
- `std::stof` is not modelled. So neither are its failures on malformed
  coefficient text nor single-precision parsing.
- Eigen's `float` arithmetic is modelled with exact reals. Rounding in the
  row sums is not represented.
- `ChemBase::getChemPtr` (the handle registry and its lookup by name) is not
  part of this model. Species are compared by name.
- `functions::inVector` and `functions::getVecPos` become membership and
  `Seqs.IndexOf`. The "not found" result of `getVecPos` cannot occur, because
  every species is registered before the matrix is assembled. The model
  proves this (`Assembly.WellFormed`, established by `RxnBase.Parse`).
- The mutable object is modelled immutably. A constructor that throws
  becomes `Err`, and no partially built object is visible. In the source, a
  throw midway through the equation list leaves `_ChemIdx` already extended
  on an object that is never completed.
- The default constructor and the getters have no properties beyond their
  values (`RxnBase.Default`, `ReactionSet.GetComment`, `GetChemIdx`,
  `GetEffiMat`). They are used in the contracts of `RxnBase.FromEquations`
  and `RxnBase.FromEquation`.
