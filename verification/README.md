# A verified model of the csympy core algorithms

csympy is a C++ library for symbolic computation. This project models the parts of it whose correctness is
not obvious from reading them, and proves that they compute what they are for. Everything below is stated
for all inputs the code accepts; where the code does not keep a promise, the exact condition under which it
does is proved beside it.

The modules follow the source files.

- **Linear Diophantine systems** (`src/diophantine.cpp`): `IntVectors`, `Solutions`, `Gordan`, `SearchDepth`,
  `Diophantine`. The stack search with frozen components terminates for every matrix with exactly the minimal
  solutions, of which every solution is a sum. The state of the search is an invariant over all runs; it also
  bounds the stack and shows that no vector is ever looked at twice. Termination rests on two facts: nothing on
  the stack has a solution strictly below it, and the norm of A v grows too slowly along a branch to let it get
  long, by Gordan's alternative.
- **Exact elimination** (`src/dense_matrix.cpp`): `Determinant` and `RealVectors` hold the theory,
  `Bareiss` the fraction-free determinant, `GaussJordan` the reduced row-echelon form, `Substitution`,
  `LuDecomposition`, `FractionFree` and `JordanSolve` the solvers and inverses. Matrix entries are reals
  (an exact field); exactness of the divisions on integer matrices is a theorem of its own.
- **Multinomial coefficients and expansion** (`src/pow.cpp`, `src/mul.cpp`, `src/add.cpp`):
  `Combinatorics`, `MultinomialTable`, `MultinomialTheorem`, `Powers`, `Expressions`, `Products`, `Parts`, `Sums`,
  `PartsProduct`, `Expansion`, `MonomialForm`, `SummandOrder`, `WeightedSums`, `CrowdedTerms`, `PowerExpansion`. An
  expression means a real number under every valuation of its symbols, and the operations are proved to keep that
  meaning and the canonical form. `Parts` reads an expression as its monic terms with their coefficients, which
  determine it; on canonical expressions every operation is also proved to return the parts it should: products
  and powers add and multiply exponents, `add` collects like terms, the expansions multiply out. Two do not keep
  everything: `mul_expand_two` loses value when terms cancel, and `Defect` says how much; `pow_expand` loses the
  canonical form exactly when the base has a product and a second term beside its constant (`KeepsForm`). Values
  are therefore proved for the wider class `WellFormed`, which has everything `pow_expand` returns, and canonical
  forms beside them.
- **Number theory** (`src/ntheory.cpp`): `ModArith`, `Primes` and `QuadraticResidues` hold the theory (Bezout,
  Fermat, Lagrange's bound on roots, Euler's criterion), the others one algorithm each: `TonelliShanks`,
  `SqrtModPrime`, `DiscreteLog`, `Hensel`, `ChineseRemainder`, `PrimeSieve`, `Factorization`, `Totient`,
  `Carmichael`. `LeastExponent` has what makes Carmichael's exponent the least.
- **Sparse matrices** (`src/sparse_matrix.cpp`): `Csr` gives the dense matrix a compressed one stands for;
  `CsrUnique` shows that the canonical form is unique, and `CsrFromCoo`, `CsrBinop`, `CsrFormat`, `CsrProduct`
  and `CsrMatrix` prove the operations against it. The scans of the code leave their arrays when an unsigned
  guard wraps around; `ScanInside` and `CsrFormat` say for which inputs.

`Common` has the few notions that several of them share.

Loops of the code are loops here, with the same variables and branches. A long loop body is a method of its
own. Each method is proved against a mathematical description of its result, and what that description
amounts to is proved as lemmas.

Products of reals are written `Times(x, y)` and of integers `Prod(a, b)` where equal factors have to be
recognised as giving equal products; both are plain multiplication.

## Model

| member | source | states |
|---|---|---|
| `Diophantine.Order` | src/diophantine.cpp:9-29 | true exactly when t lies above the basis vector in every component and differs from it |
| `Diophantine.IsMinimum` | src/diophantine.cpp:31-38 | true exactly when t dominates none of the first n basis vectors |
| `Solutions.MinimalBelow` | src/diophantine.cpp:40-45 | below every nonzero solution lies a minimal one: the basis generates by domination |
| `Diophantine.GeometricCriterion` | src/diophantine.cpp:102-114 | a vector that is no solution but lies under one has a child towards it with negative inner product |
| `Diophantine.ApartSeparates` | src/diophantine.cpp:107-123 | entries whose frozen components keep them apart reach no comparable vectors |
| `Diophantine.PushShape` | src/diophantine.cpp:113-123 | pushing child i keeps the stack well formed: the entry at position p has at least p frozen components, so the stack never exceeds q and the table is never indexed out of range |
| `Diophantine.ConsiderChild` | src/diophantine.cpp:91-124 | one child of a popped vector, pushed or not; either way no minimal solution is lost |
| `Diophantine.ExpandEntry` | src/diophantine.cpp:86-124 | the whole inner loop: every minimal solution the popped entry covered is covered by a child |
| `Diophantine.ExpansionCovers` | src/diophantine.cpp:86-124 | after all children a minimal solution above the popped vector is covered by a pushed entry |
| `Diophantine.PoppedSolutionIsMinimal` | src/diophantine.cpp:83-84 | a solution found on top of the stack is minimal, in every reachable state |
| `Diophantine.PopSolutionKeeps` | src/diophantine.cpp:76-84 | moving it to the basis keeps the search invariant |
| `Diophantine.PopExpandKeeps` | src/diophantine.cpp:76-125 | expanding a popped vector keeps the search invariant |
| `Diophantine.SearchRound` | src/diophantine.cpp:75-126 | one round of the outer loop keeps the invariant and pops a vector never popped before |
| `Solutions.MinimalGenerate` | src/diophantine.cpp:40-45 | every natural v with A v = 0 is a sum of vectors of any list that has all minimal solutions |
| `Gordan.Alternative` | src/diophantine.cpp:107-114 | for integer vectors, a natural combination that is not all zero vanishes, or some vector has a positive inner product with each of them |
| `Gordan.Exclusive` | src/diophantine.cpp:107-114 | never both |
| `SearchDepth.StepIsSlow` | src/diophantine.cpp:101-114 | a child that is pushed has a squared norm of A v at most Pace times the sum of its components, if its parent has |
| `Diophantine.TopIsLow` | src/diophantine.cpp:75-84 | no solution lies strictly below the vector that is popped, in every reachable state |
| `SearchDepth.Depth` | src/diophantine.cpp:75-126 | whatever components are frozen at whatever values, the sums of the vectors with both properties are bounded |
| `SearchDepth.DepthBound` | src/diophantine.cpp:75-126 | every matrix has a bound on the sums of all vectors the search can meet |
| `Diophantine.HomogeneousLde` | src/diophantine.cpp:45-127 | terminates for every matrix; the basis is then exactly the set of minimal solutions, without repetition, and every solution is a sum of its members; no vector is popped twice |
| `Determinant.Linear` | src/dense_matrix.cpp:989-1016 | the determinant is linear in every row |
| `Determinant.AdjacentSwap` | src/dense_matrix.cpp:995-1000 | exchanging neighbouring rows changes its sign |
| `Determinant.RowAdd` | src/dense_matrix.cpp:1003-1012 | adding a multiple of a row to another leaves the determinant unchanged |
| `Determinant.SwapRows` | src/dense_matrix.cpp:995-1000 | exchanging any two rows changes the sign |
| `Determinant.TriangularDet` | src/dense_matrix.cpp:1003-1020 | a triangular determinant is the product of its diagonal |
| `Determinant.SingularDet` | src/dense_matrix.cpp:992-1002 | a triangular shape that runs into a column without pivot has determinant 0 |
| `Determinant.IntegerDet` | src/dense_matrix.cpp:963-1023 | an integer matrix has an integer determinant |
| `Bareiss.RowExchange` | src/dense_matrix.cpp:256-264 | exactly rows i and j are exchanged |
| `Bareiss.EliminateBelow` | src/dense_matrix.cpp:1003-1012 | the two inner loops rewrite the matrix to the next stage, and nothing else |
| `Bareiss.EliminateMinor` | src/dense_matrix.cpp:1003-1012 | minors that contain the pivot rows are unchanged by clearing a column |
| `Bareiss.StageScaled` | src/dense_matrix.cpp:1003-1012 | a stage keeps the matrix a row-scaled triangularisation of the permuted input |
| `Bareiss.EntryIsMinor` | src/dense_matrix.cpp:1003-1012 | every entry not yet eliminated is a minor of the permuted input |
| `Bareiss.RunMinors` | src/dense_matrix.cpp:989-1013 | in the k-th matrix of the run each entry from row and column k on is a minor of A with k + 1 distinct rows and columns |
| `Bareiss.DivisionIsExact` | src/dense_matrix.cpp:1006-1010 | on an integer matrix the quotient a stage forms for an entry, (p e - f y) by the previous pivot, is a quotient of integers that is an integer |
| `Bareiss.RunIsExact` | src/dense_matrix.cpp:989-1013 | on an integer matrix every division of the run is exact and every matrix of it is integral |
| `Bareiss.NoPivot` | src/dense_matrix.cpp:992-1002 | if column k has no pivot left the determinant is 0, as the early return says |
| `Bareiss.SmallDet` | src/dense_matrix.cpp:966-985 | the closed formulas for n = 1, 2, 3 are the determinant |
| `Bareiss.BareissRound` | src/dense_matrix.cpp:989-1013 | one round is a stage of the run: the first row with a pivot is exchanged, the sign follows, the rows below are rewritten; it fails exactly when no row has one, and then the determinant is 0 |
| `Bareiss.DetBareis` | src/dense_matrix.cpp:963-1023 | the result is the determinant for every n >= 1; for n > 3 the trace is the run from A to the last column or to the first one without pivot, and on an integer matrix each of its divisions is exact |
| `GaussJordan.Pivot` | src/dense_matrix.cpp:514-523 | the first row from r on with a nonzero entry in column c, or the number of rows |
| `GaussJordan.RowMulScalar` | src/dense_matrix.cpp:266-274 | row i is multiplied by c, the others are unchanged |
| `GaussJordan.RowAddRow` | src/dense_matrix.cpp:276-286 | c times row j is added to row i, the others are unchanged |
| `GaussJordan.AddNullSpace` | src/dense_matrix.cpp:276-286 | adding a multiple of another row keeps the null space |
| `GaussJordan.ScaleNullSpace` | src/dense_matrix.cpp:266-274 | scaling a row by a nonzero factor keeps the null space |
| `GaussJordan.ClearColumn` | src/dense_matrix.cpp:416-426 | the pivot becomes 1, the rest of its column 0, and the null space stays |
| `GaussJordan.ClearedPivot` | src/dense_matrix.cpp:416-430 | clearing a column extends the reduced part by that column |
| `GaussJordan.LeadsSwapped` | src/dense_matrix.cpp:410-413 | rows not used yet may be exchanged before the elimination as well as during it |
| `GaussJordan.UsePivot` | src/dense_matrix.cpp:407-430 | one column with a pivot: reduced part, null space and row order are kept, and the list follows the exchange |
| `GaussJordan.OrderTakes` | src/dense_matrix.cpp:407-430 | a column with a pivot: taking the first possible row and exchanging it leads to the same final order |
| `GaussJordan.PivotedGaussJordan` | src/dense_matrix.cpp:392-431 | for any shape and rank: reduced row-echelon form, same null space, and pivotlist is the permutation of the rows of A that reduces to the result without any exchange, namely the one that taking the first possible pivot in every column produces |
| `Substitution.ForwardStep` | src/dense_matrix.cpp:565-571 | one elimination step moves the term f y / (p d) from what is left of b into the sum already explained |
| `Substitution.UnitLowerIsLower` | src/dense_matrix.cpp:555-572 | on a unit lower factor the fraction-free routine solves with that factor itself |
| `Substitution.ForwardSubstitution` | src/dense_matrix.cpp:555-572 | x is what the columns make of b; it solves L x = b, where L is the factor with column i divided by pivots i and i - 1, when the last of these pivots, by which nothing is divided, is not zero either |
| `Substitution.ForwardResultSolves` | src/dense_matrix.cpp:555-572 | that the result solves the system of the factor |
| `Substitution.BackSubstitution` | src/dense_matrix.cpp:538-553 | x solves U x = b, where U is the upper triangle of the matrix |
| `Substitution.SolveByFactors` | src/dense_matrix.cpp:664-684 | A = L U, L y = b and U x = y give A x = b |
| `LuDecomposition.MinorIsPivotProduct` | src/dense_matrix.cpp:731-754 | the leading minors of L U are the products of the pivots |
| `LuDecomposition.PivotsIffMinors` | src/dense_matrix.cpp:751-754 | the pivots of a factored matrix are all nonzero exactly when its leading minors are: the precondition of the solvers |
| `LuDecomposition.PivotIsNonzero` | src/dense_matrix.cpp:740-751 | if the leading minors of A are nonzero, no division meets a zero pivot |
| `LuDecomposition.ReduceEntry` | src/dense_matrix.cpp:741-749 | the innermost loop subtracts what the finished rows and columns account for, from one entry only |
| `LuDecomposition.DecomposeColumn` | src/dense_matrix.cpp:740-755 | one column: reduced, divided by a nonzero pivot, everything before it untouched |
| `LuDecomposition.SplitFactors` | src/dense_matrix.cpp:757-768 | the part below the diagonal goes to L, which gets a unit diagonal, and is cleared in U |
| `LuDecomposition.LU` | src/dense_matrix.cpp:731-769 | A = L U with L unit lower and U upper triangular and all pivots nonzero |
| `LuDecomposition.LUSolve` | src/dense_matrix.cpp:675-684 | A x = b |
| `LuDecomposition.InverseLU` | src/dense_matrix.cpp:1163-1203 | A B = I |
| `FractionFree.StagedPivot` | src/dense_matrix.cpp:710-726 | without row exchanges the pivots are the leading minors |
| `FractionFree.NextFactoring` | src/dense_matrix.cpp:718-726 | a stage keeps A the product of the part already factored and what is left |
| `FractionFree.FactoringIsProduct` | src/dense_matrix.cpp:702-726 | the finished matrix stands for a true factorization of A once its columns are divided by the pivots |
| `FractionFree.FractionFreeLU` | src/dense_matrix.cpp:710-726 | the pivots are the leading minors of A; if the last but one is not zero either, Lower times Upper of the result is A |
| `FractionFree.FractionFreeLUSolve` | src/dense_matrix.cpp:664-673 | A x = b |
| `JordanSolve.StageKeepsSolutions` | src/dense_matrix.cpp:631-653 | every solution of the system after a stage solves the system before it |
| `JordanSolve.NextShape` | src/dense_matrix.cpp:631-657 | after stage i the first i + 1 columns are diagonal with equal pivots, and the rest is the fraction-free elimination |
| `JordanSolve.JordanRound` | src/dense_matrix.cpp:631-657 | one round rewrites matrix and right-hand sides as one stage describes |
| `JordanSolve.JordanEliminate` | src/dense_matrix.cpp:631-657 | ends with a diagonal matrix whose entries are all the determinant of A |
| `JordanSolve.FractionFreeGaussJordanSolve` | src/dense_matrix.cpp:618-662 | A X = b for any number of right-hand sides |
| `JordanSolve.InverseGaussJordan` | src/dense_matrix.cpp:1205-1225 | A B = I |
| `Combinatorics.MultinomialFact` | src/pow.cpp:311-312 | the coefficient times the product of the t_i! is (sum of the t_i)! |
| `Combinatorics.MultinomialIsQuotient` | src/pow.cpp:311-312 | that equation determines the coefficient |
| `MultinomialTable.CompositionsMembers` | src/pow.cpp:312-353 | the keys to be filled in are exactly the vectors of m naturals with sum n |
| `MultinomialTable.NextIsNext` | src/pow.cpp:325-343 | no vector with the same sum lies between t and its successor in co-lexicographic order |
| `MultinomialTable.NeighbourCoefficient` | src/pow.cpp:344-352 | how the coefficient of t + e_0 - e_k relates to that of t |
| `MultinomialTable.RecurrenceIsExact` | src/pow.cpp:352-352 | the division of the recurrence leaves no remainder and gives the coefficient of t |
| `MultinomialTable.NeighboursStored` | src/pow.cpp:340-350 | every coefficient the round looks up is in the table already |
| `MultinomialTable.NextEntry` | src/pow.cpp:325-352 | one round steps t to its successor and computes exactly its coefficient |
| `MultinomialTable.FilledNext` | src/pow.cpp:325-352 | storing it extends the table by one vector in order |
| `MultinomialTable.LaterShrinks` | src/pow.cpp:325-352 | the set of vectors still to come shrinks: the loop terminates |
| `MultinomialTable.MultinomialCoefficients` | src/pow.cpp:312-353 | the keys added are exactly the compositions, each with its multinomial coefficient; m < 2 and n < 0 are refused and leave the map as it was |
| `MultinomialTheorem.BinomialTheorem` | src/pow.cpp:355-435 | (x + y)^n is the sum of binomial coefficient times x^h y^(n-h) |
| `MultinomialTheorem.MultinomialTheorem` | src/pow.cpp:355-435 | (w_0 + ... + w_(m-1))^n is the sum over all compositions of coefficient times monomial |
| `Powers.PowerAdd` | src/mul.cpp:270-280 | x^(a+b) = x^a x^b, for negative exponents too unless x is 0: adding exponents is multiplying |
| `Powers.PowerTimes` | src/pow.cpp:249-253 | (x y)^n = x^n y^n for every integer n |
| `Powers.PowerPower` | src/pow.cpp:254-259 | (x^a)^b = x^(a b) wherever both sides exist |
| `Expressions.EvaluationIsValuation` | src/pow.cpp:355-435 | every assignment of reals to the symbols extends to a valuation of all expressions |
| `Products.AsBaseExpNumber` | src/mul.cpp:313-330 | a number is the base found, to the exponent found, also for fractions below 1 |
| `Products.DictAddTermNew` | src/mul.cpp:247-299 | the exponent is added and a factor that cancels is dropped; a number is multiplied into the coefficient |
| `Products.AddExponentValue` | src/mul.cpp:247-299 | coefficient times dictionary is multiplied by t^exp under every valuation |
| `Products.MergedValue` | src/mul.cpp:341-361 | merging two dictionaries multiplies their values |
| `Products.FromDict` | src/mul.cpp:189-216 | the expression returned has the value of coefficient times factors, and is canonical if the factors are those of a canonical product |
| `Products.FactorsOfCanonical` | src/mul.cpp:19-60 | the factors of a canonical expression are bases with nonzero exponents, never a single product or power |
| `Products.CanonicalIsWellFormed` | src/pow.cpp:20-58 | canonical expressions are among those the values are proved for |
| `Products.ScaledValue` | src/mul.cpp:472-499 | multiplying all exponents by n raises the value to n |
| `Products.PowerAllTerms` | src/mul.cpp:472-499 | the result has the value of the product to the power n; for a canonical product it is canonical, with the coefficient raised to n and every exponent multiplied by n |
| `Products.PowBasic` | src/pow.cpp:165-261 | for integer exponents the result has the value of a to the power b, wherever that exists; for canonical a it is canonical, with the coefficient of a raised to b and every exponent multiplied by b, and 1 for b = 0 |
| `Products.ReciprocalExponents` | src/mul.cpp:341-387 | two terms cancel exactly when they have the same bases with opposite exponents |
| `Products.MulBasic` | src/mul.cpp:341-387 | the result has the value of a b; for canonical a and b it is canonical, its coefficient is the product of the coefficients and its exponent of every base the sum of the exponents, or it is the number 0 if a coefficient is; terms that cancel, and only those, give the number 1 |
| `Products.FactorsDetermine` | src/mul.cpp:19-60 | canonical expressions with the same coefficient and the same exponents are equal: what MulBasic and PowBasic say leaves one result |
| `Parts.PartsValue` | src/add.cpp:262-277 | the value of a canonical expression is the sum of its parts: its monic terms with their coefficients, the constant being the coefficient of 1 |
| `Parts.PartsDetermine` | src/add.cpp:19-54 | expressions in simplest form with the same parts are equal: what the operations on sums say about parts leaves one result |
| `Parts.CanonicalIsSimple` | src/add.cpp:19-54 | canonical expressions are in simplest form |
| `Sums.DictAddTerm` | src/add.cpp:248-259 | the coefficient is added and a term whose coefficient becomes 0 is dropped |
| `Sums.AddTermValue` | src/add.cpp:248-259 | the dictionary grows by coefficient times term under every valuation |
| `Sums.SumFromDict` | src/add.cpp:159-244 | the expression returned has the value of the constant plus the terms, and these as its parts; it is canonical if the terms are, and not if one of them is a product with a factor that is no base |
| `Sums.AsCoefTerm` | src/add.cpp:262-277 | coefficient times term is the expression, the term has no coefficient of its own and is canonical if the expression is |
| `Sums.AddBasic` | src/add.cpp:279-325 | the result has the value of a + b; for canonical a and b it is canonical and like terms are collected: the coefficient of every term is the sum of its coefficients in a and b |
| `PartsProduct.ConvolutionCommutes` | src/mul.cpp:432-433 | the product part by part does not depend on the order of the factors, as the recursive call with exchanged arguments needs |
| `PartsProduct.ConvolutionWithConstant` | src/mul.cpp:421-430 | the rows of a sum in the product are those of its terms and the one of its constant |
| `Expansion.MulTerms` | src/mul.cpp:412-416 | two monic terms give the term with their exponents added, or 1 exactly when they cancel |
| `Expansion.ExpandRow` | src/mul.cpp:411-419 | one row of the product: what it adds to the value and to the coefficient of every term, and exactly what it loses when terms cancel |
| `Expansion.ExpandSums` | src/mul.cpp:403-432 | two sums are multiplied out: the coefficient of every term is the sum of c e over the pairs c p, e q that make it, constants included; the value misses the product by Defect: 1 - c e for each pair of terms that cancel |
| `Expansion.ExpandTermSum` | src/mul.cpp:434-458 | a term or number times a sum: the same with one row |
| `Expansion.MulExpandTwo` | src/mul.cpp:400-461 | on canonical a and b the result is canonical and multiplied out: the coefficient of every term is the sum over the pairs of parts of a and b that make it, and the constant has Lost(a, b) besides, computed from a and b; by this much the value misses the product, so it is exact at a valuation exactly when that is 0, and always when all exponents are positive |
| `Expansion.PositiveDefect` | src/mul.cpp:414-418 | positive exponents never cancel |
| `Expansion.CoefficientIsLost` | src/mul.cpp:415-416 | an input that loses: x + 1 times 2/x + 1, both canonical, comes out 1 too small at every x that is not 0, for the cancelling pair is added without its coefficient |
| `MonomialForm.MonomialIsCanonical` | src/pow.cpp:376-413 | the dictionary of a monomial has a product as a base exactly when a term that is a product has a positive exponent, and is that of a canonical product otherwise |
| `MonomialForm.NoProductNothingCrowded` | src/pow.cpp:376-413 | without a product among the terms no product arises that has a product among several factors |
| `MonomialForm.CrowdedCoefficient` | src/pow.cpp:414-431 | a product with a product among several factors comes only from the compositions with just these factors |
| `CrowdedTerms.BaseExponent` | src/pow.cpp:382-411 | a base that is no product has in a monomial the sum of the exponents the terms contribute |
| `CrowdedTerms.ProductExponent` | src/pow.cpp:382-411 | a product has in a monomial as exponent the number of entries whose power it is |
| `CrowdedTerms.AloneStays` | src/pow.cpp:376-431 | a dictionary that comes from one composition only does not cancel |
| `CrowdedTerms.ProductBesideBase` | src/pow.cpp:376-431 | with a product and a term that is none, besides the constant, the result of n >= 2 has a product among several factors |
| `CrowdedTerms.TwoProducts` | src/pow.cpp:376-431 | so it has with two products |
| `CrowdedTerms.OneTermNothingCrowded` | src/pow.cpp:376-431 | with a single term besides the constant it has not |
| `CrowdedTerms.NothingCrowdedIff` | src/pow.cpp:376-431 | for n >= 2 and a canonical base no such product arises exactly when the base has one term besides its constant or no product among its terms |
| `CrowdedTerms.ProductPlusSymbol` | src/pow.cpp:388-392 | the canonical (x y + z)^2 is a failing input, (x y + 1)^2 is not |
| `PowerExpansion.PowNumber` | src/pow.cpp:123-136 | binary powering gives x^n for 0 <= n < 2^63, also when the mask wraps around, and 1 for negative n |
| `PowerExpansion.MultiplyEntry` | src/pow.cpp:382-411 | one entry of a composition multiplies the monomial by (c k)^e |
| `PowerExpansion.BuildMonomial` | src/pow.cpp:376-413 | coefficient and dictionary have the value of the monomial with these exponents, and are the ones that MonomialScale and MonomialFactors describe |
| `PowerExpansion.AddMonomial` | src/pow.cpp:414-431 | the value grows by multinomial coefficient times monomial, and exactly the coefficient of the term of the monomial, or the constant, grows by coefficient times scale |
| `PowerExpansion.PowExpand` | src/pow.cpp:355-435 | a power of a sum keeps its value under every valuation; a negative exponent is refused; for a canonical power the result is expanded: the coefficient of every term, and the constant, is the sum of multinomial coefficient times scale over the compositions whose monomial is that term; it is canonical exactly when the base has one term besides its constant or no product among its terms |
| `SummandOrder.AnyOrder` | src/pow.cpp:355-381 | these coefficients do not depend on the order in which the terms of the base are taken |
| `SummandOrder.FactorsSwap` | src/pow.cpp:376-413 | exchanging neighbouring terms together with their exponents leaves the monomial |
| `PowerExpansion.CanonicalUnlessCrowded` | src/pow.cpp:414-431 | the terms collected are all canonical, or one of them is a product with a product among its factors, as the coefficients say |
| `QuadraticResidues.RootBound` | src/ntheory.cpp:939-978 | a polynomial of degree d has at most d roots modulo a prime |
| `QuadraticResidues.EulerCriterion` | src/ntheory.cpp:986-986 | a is a square modulo p exactly when a^((p-1)/2) = 1, and otherwise the power is -1 |
| `TonelliShanks.SplitPowerOfTwo` | src/ntheory.cpp:945-949 | p - 1 = 2^e q with odd q |
| `TonelliShanks.StartLoop` | src/ntheory.cpp:955-958 | the loop invariant holds at the start, for any nonresidue n |
| `TonelliShanks.SquaringsToOne` | src/ntheory.cpp:961-966 | m is the least number of squarings that takes b to 1 |
| `TonelliShanks.RoundKeeps` | src/ntheory.cpp:967-976 | a round keeps rop^2 = a b and y^(2^(e-1)) = -1 with a smaller e |
| `TonelliShanks.SqrtModTonelliShanks` | src/ntheory.cpp:939-978 | terminates; true exactly when a is a square modulo p, and then rop^2 = a |
| `SqrtModPrime.TwoIsNonresidue` | src/ntheory.cpp:997-1006 | 2^((p-1)/2) = -1 for p = 5 modulo 8, on which the second formula rests |
| `SqrtModPrime.Legendre` | src/ntheory.cpp:986-986 | 0, 1 or -1 as p divides a, a is a square, or is not |
| `SqrtModPrime.BruteForce` | src/ntheory.cpp:1008-1020 | the search through the squares finds the least root exactly when there is one |
| `SqrtModPrime.ThreeModFour` | src/ntheory.cpp:992-994 | for p = 3 modulo 4 the root is reduced, and of the two the one that is a square itself |
| `SqrtModPrime.FiveModEight` | src/ntheory.cpp:995-1006 | for p = 5 modulo 8 the root is reduced, and negative only if a is |
| `SqrtModPrime.SqrtModPrime` | src/ntheory.cpp:980-1025 | for every prime: true exactly when a is a square, and then rop is a root, reduced modulo p, with the sign of the remainder of C++ for negative a |
| `DiscreteLog.SubgroupOrder` | src/ntheory.cpp:1034-1035 | g^(n/q) has order q |
| `DiscreteLog.BuildTable` | src/ntheory.cpp:1045-1048 | the table maps exactly the first m powers of alpha to exponents that produce them |
| `DiscreteLog.BabyGiant` | src/ntheory.cpp:1052-1061 | the giant steps find the digit, always, and it is the right one |
| `DiscreteLog.Round` | src/ntheory.cpp:1050-1069 | a round finds the next digit of the logarithm and takes it out of gamma |
| `DiscreteLog.Logarithm` | src/ntheory.cpp:1029-1070 | g^log = a and 0 <= log < q^k |
| `Hensel.NewtonStep` | src/ntheory.cpp:1164-1168 | the correction makes a root modulo P a root modulo a divisor of P^2 |
| `Hensel.LiftRound` | src/ntheory.cpp:1159-1169 | one round doubles the precision, or stops at k |
| `Hensel.HenselLift` | src/ntheory.cpp:1156-1170 | ends with root^r = s modulo p^k for every k >= 1, congruent to the root it started from and reduced modulo p^k if k > 1 |
| `Hensel.LiftUnique` | src/ntheory.cpp:1156-1170 | there is only one such lift |
| `ChineseRemainder.JointMultiples` | src/ntheory.cpp:639-650 | what m and the next modulus divide together is what their least common multiple divides |
| `ChineseRemainder.Crt` | src/ntheory.cpp:628-652 | true exactly when the congruences have a common solution; the result stands for all of them, and for two or more moduli it is the one less than their least common multiple in size with the sign of the product of the moduli |
| `ChineseRemainder.AllPositiveProduct` | src/ntheory.cpp:639-650 | for positive moduli that sign is positive |
| `ChineseRemainder.CrtRound` | src/ntheory.cpp:639-650 | one more congruence is combined with the others, or has no solution with them; moduli may be negative |
| `PrimeSieve.MultiplesAreSlice` | src/ntheory.cpp:546-555 | the window entries that stand for multiples of n are those the slice addresses |
| `PrimeSieve.MarkComposites` | src/ntheory.cpp:543-556 | after the marking loop an entry is still set exactly when no listed odd prime up to the bound divides its number |
| `PrimeSieve.SurvivorsArePrimes` | src/ntheory.cpp:544-556 | what survives the primes up to the square root is prime |
| `PrimeSieve.CollectPrimes` | src/ntheory.cpp:557-560 | the primes of the window are appended in order |
| `PrimeSieve.FirstTenPrimes` | src/ntheory.cpp:502-502 | the initial list is the list of all primes up to 29 |
| `PrimeSieve.Sieve.constructor` | src/ntheory.cpp:502-504 | the initial state is valid |
| `PrimeSieve.Sieve.Clear` | src/ntheory.cpp:511-514 | back to the first ten primes |
| `PrimeSieve.Sieve.Extend` | src/ntheory.cpp:524-563 | the list is exactly the primes up to limit, or up to the old last prime if that is more, for every limit within a window of the last prime known when the windows begin |
| `PrimeSieve.RootWithinWindow` | src/ntheory.cpp:532-535 | the recursive call for the square root is within its window whenever the outer call is |
| `PrimeSieve.Sieve.SieveWindows` | src/ntheory.cpp:539-561 | the loop over the windows, of which one suffices |
| `PrimeSieve.Sieve.GeneratePrimes` | src/ntheory.cpp:565-574 | exactly the primes up to limit, in order, and the list cleared if asked for |
| `PrimeSieve.WindowOverrun` | src/ntheory.cpp:542-542 | the last index of the window is out of range exactly when limit exceeds start + 2 segment |
| `Factorization.DivideOut` | src/ntheory.cpp:489-492 | divides by p as often as possible and counts |
| `Factorization.LeftoverIsPrime` | src/ntheory.cpp:498-499 | what is left after all primes up to the square root is 1 or a prime |
| `Factorization.PrimeFactorMultiplicities` | src/ntheory.cpp:472-500 | exactly the prime factorization of the absolute value, leftover included; 0 gives nothing |
| `Totient.SieveOut` | src/ntheory.cpp:861-866 | of the first p m numbers avoiding some primes, a fraction 1/p is divisible by the next prime |
| `Totient.CountFormula` | src/ntheory.cpp:861-866 | the numbers up to a multiple of the product that avoid all the primes are counted by the product formula |
| `Totient.CountsAgree` | src/ntheory.cpp:851-868 | avoiding the prime factors of n is being coprime to n |
| `Totient.ComputeTotient` | src/ntheory.cpp:851-868 | the number of k in 1..abs(n) coprime to n, and 1 for 0 |
| `Carmichael.EulerPrimePower` | src/ntheory.cpp:886-889 | a^((p-1) p^(e-1)) = 1 modulo p^e |
| `Carmichael.OddPower` | src/ntheory.cpp:883-885 | for odd a and e > 2 the exponent 2^(e-2) suffices modulo 2^e |
| `Carmichael.ComputeCarmichael` | src/ntheory.cpp:870-893 | the least universal exponent: a^lambda = 1 modulo n for every a coprime to n, and lambda divides every exponent for which that is so |
| `Carmichael.UniversalParts` | src/ntheory.cpp:878-891 | an exponent universal modulo n is universal modulo each prime power of n |
| `Carmichael.NextDividesAll` | src/ntheory.cpp:886-889 | lcm(lambda, p - 1) p^(e-1) divides every common multiple of the exponents so far: lambda and p are coprime |
| `LeastExponent.PrimeMultiple` | src/ntheory.cpp:886-887 | an exponent universal modulo p is a multiple of p - 1 |
| `LeastExponent.NearOneStep` | src/ntheory.cpp:888-889 | a number that is 1 modulo p^i only has a p-th power that is 1 modulo p^(i+1) only |
| `LeastExponent.LocalMultiple` | src/ntheory.cpp:883-889 | an exponent universal modulo p^e is a multiple of (p - 1) p^(e-1), or of 2^(e-2) for p = 2 and e > 2 |
| `Carmichael.ReducedIsOrder` | src/ntheory.cpp:910-920 | an exponent from which no prime can be removed is the least |
| `Carmichael.ReducePrime` | src/ntheory.cpp:910-920 | for one prime factor: removed entirely, then restored just as often as needed |
| `Carmichael.MultiplicativeOrder` | src/ntheory.cpp:896-923 | false exactly when a and n are not coprime; otherwise the least positive k with a^k = 1 modulo n, also for negative n |
| `CsrFromCoo.CountRows` | src/sparse_matrix.cpp:314-317 | p holds the number of triplets of each row |
| `CsrFromCoo.CumulativeSum` | src/sparse_matrix.cpp:319-325 | p becomes the start of each row |
| `CsrFromCoo.Scatter` | src/sparse_matrix.cpp:327-334 | every triplet lands in its row, and p has moved to the ends |
| `CsrFromCoo.ShiftPointers` | src/sparse_matrix.cpp:336-340 | p is moved back to the starts |
| `CsrFromCoo.SortIndices` | src/sparse_matrix.cpp:232-261 | every row is sorted by column with its sums unchanged |
| `CsrFromCoo.SumDuplicates` | src/sparse_matrix.cpp:196-229 | every row is compacted in place to distinct columns with the same sums |
| `CsrFromCoo.FromCoo` | src/sparse_matrix.cpp:302-347 | a canonical matrix whose entry (i, j) is the sum of all triplets at (i, j), and which stores (i, j) exactly when there is a triplet for it |
| `CsrFormat.HasSortedIndices` | src/sparse_matrix.cpp:277-288 | with the unsigned guard: if the first row is not empty, true exactly when no row descends; otherwise all columns are scanned as one row and the scan leaves the array unless it meets a descent |
| `CsrFormat.HasCanonicalFormat` | src/sparse_matrix.cpp:290-300 | pointers that descend are refused; if the first row is not empty, true exactly when the columns of every row increase strictly; otherwise the wrapped scan decides |
| `CsrFormat.IsCanonical` | src/sparse_matrix.cpp:54-62 | confirms exactly the matrices that store nothing and those in canonical format whose first row is not empty; leaves the array exactly when the pointers ascend, the first row is empty and the columns as a whole never descend |
| `CsrFormat.DescendsIffCross` | src/sparse_matrix.cpp:277-288 | the columns of a matrix built from triplets descend somewhere exactly when a triplet has a greater column than one in a later row |
| `CsrFormat.CheckedFromCoo` | src/sparse_matrix.cpp:302-347 | the assertion at the end of from_coo holds exactly when there is no triplet or one in the first row; its scan leaves the array exactly when there are triplets, none in the first row, and none with a greater column than one in a later row |
| `CsrFormat.TripletBelowEmptyRow` | src/sparse_matrix.cpp:21-27 | a failing input: one triplet in the second row |
| `CsrBinop.HasDuplicates` | src/sparse_matrix.cpp:264-275 | with the unsigned guard: if the first row does not end at 0, true exactly when two neighbours in a row hold the same column; otherwise all columns are scanned as one row and the scan leaves the array unless it meets equal neighbours |
| `CsrBinop.GuardStaysInside` | src/sparse_matrix.cpp:269-270 | the guards with an unsigned end - 1 keep the scan inside the rows exactly when no row ends at 0 |
| `CsrBinop.MergeStep` | src/sparse_matrix.cpp:518-555 | one comparison of the two rows keeps the output the merge of what was passed |
| `CsrBinop.MergeRow` | src/sparse_matrix.cpp:512-572 | a whole row, both tails included |
| `CsrBinop.Binop` | src/sparse_matrix.cpp:501-578 | a canonical matrix without stored zeros that holds op at every position stored in an operand; the final scan stays inside the array exactly when op is not 0 at some position stored in row 0, or op is not 0 at two positions of one column that are the last of their row and the first of a later one, with only zeros between |
| `CsrBinop.RepeatsIffMeet` | src/sparse_matrix.cpp:264-275 | the merged columns have equal neighbours exactly when two rows of the operands meet in a column in that way |
| `CsrBinop.EmptyRowLeaves` | src/sparse_matrix.cpp:264-275 | a failing input: two matrices with one empty row |
| `CsrBinop.NothingToSum` | src/sparse_matrix.cpp:574-577 | summing duplicates that are none changes nothing |
| `CsrUnique.CanonicalIsUnique` | src/sparse_matrix.cpp:574-577 | canonical matrices without stored zeros and with the same entries are stored alike |
| `CsrBinop.PointwiseIff` | src/sparse_matrix.cpp:501-578 | that is op of the dense matrices exactly when op(0, 0) = 0 or the operands cover every position |
| `CsrProduct.CountRow` | src/sparse_matrix.cpp:358-372 | the mask counts every touched column of a row once |
| `CsrProduct.Pass1` | src/sparse_matrix.cpp:349-384 | the row pointers count the touched entries; the overflow error is raised exactly when the total does not fit an unsigned |
| `CsrProduct.ScanRow` | src/sparse_matrix.cpp:396-416 | the chain through next holds every touched column once, the one met last first, and sums their products |
| `CsrProduct.EarlierStandsBehind` | src/sparse_matrix.cpp:412-416 | what was met earlier stands behind what was met later, in the same order as before |
| `CsrProduct.EmitRow` | src/sparse_matrix.cpp:418-432 | the row is written in the order of the chain, without zeros and within the count of pass 1, and the scratch arrays are clean again |
| `CsrProduct.PartialIsProduct` | src/sparse_matrix.cpp:400-405 | summing over the stored entries is summing over the dense row |
| `CsrProduct.Pass2` | src/sparse_matrix.cpp:386-437 | every row of C is the row of the dense product, with distinct columns in the order of the chain and no zeros, within what pass 1 counted; nothing is written beyond |
| `CsrProduct.Multiply` | src/sparse_matrix.cpp:349-437 | pass 1, arrays of the length it found, pass 2: a well formed matrix with every entry that of the dense product, the columns of every row in the order of the chain, and zeros in the positions not needed |
| `CsrProduct.ProductIsWellFormed` | src/sparse_matrix.cpp:349-437 | the row pointers ascend and every stored column, the unused positions included, is one of B |
| `CsrMatrix.CSRMatrix.constructor` | src/sparse_matrix.cpp:14-19 | an empty matrix is canonical and zero, and stores nothing |
| `CsrMatrix.CSRMatrix.Get` | src/sparse_matrix.cpp:65-81 | the entry of the dense matrix, the early exit included |
| `CsrMatrix.CSRMatrix.Set` | src/sparse_matrix.cpp:83-111 | exactly the entry (i, j) becomes e, (i, j) is stored exactly when e is not 0, elsewhere what was stored stays so, and the matrix stays canonical |
| `CsrMatrix.InsertReplaces` | src/sparse_matrix.cpp:97-102 | inserting at the right position sets one entry and keeps the format |
| `CsrMatrix.RemoveReplaces` | src/sparse_matrix.cpp:104-109 | removing a stored entry sets it to zero and keeps the format |
| `CsrMatrix.InsertStores` | src/sparse_matrix.cpp:97-102 | after inserting, (i, j) is stored and everything else as before |
| `CsrMatrix.RemoveStores` | src/sparse_matrix.cpp:104-109 | after removing, (i, j) is not stored and everything else as before |

## Left out

- Diophantine.HomogeneousLde: the basis starts empty; a caller that passes solutions along is not modelled.
- PrimeSieve.Sieve.Extend: the 32-bit wrap-around of `_primes[index] * _primes[index]` and of `start + segment * 2 + 1` is not modelled; the limit stays within a window of the last prime known when the windows begin (`WithinWindow`), which is when the source stays inside its buffer (`WindowOverrun`).
- Factorization.PrimeFactorMultiplicities: takes the primes up to the square root as an argument in place of `Sieve::iterator`, whose doubling step relies on a theorem about gaps between primes, and does not model the error for numbers too large to factor.
- TonelliShanks.SqrtModTonelliShanks: the nonresidue is an argument; drawing it at random is not modelled.
- SqrtModPrime.SqrtModPrime: takes the nonresidue along for the same reason.
- ChineseRemainder.Crt: the moduli are not zero; with two or more moduli the source divides by zero if one is.
- Carmichael.MultiplicativeOrder: n = 0 with a = 1 or -1, where the source divides by zero; the primes for the two factorizations are an argument.
- Hensel.HenselLift: the loop that lifts modulo powers of p when p divides the exponent, and the generation of all roots, are not modelled.
- Products.PowBasic: exponents are integers; rational, symbolic and complex powers are not modelled. Symbols stand for every base that is no number, power, product or sum.
- Products.FromDict: numbers are reals, so the branches that tell integers from rationals only to choose between equal results are one branch, and Complex coefficients are absent.
- Parts.HasParts: a single sum with the coefficient 1, as in 3 (x + y) - 2 (x + y), is returned as that sum, so its parts are read from the sum itself.
- PowerExpansion.PowExpand: a product that the source builds with a coefficient and takes apart again at once (src/pow.cpp:414-428) is judged by the term that is left, not by the assertion in between.
- Expansion.MulExpandTwo: on expressions that are not canonical because a single factor is itself a product or a power, the loss is bounded by the other clauses only.
- LuDecomposition.LU: like the solvers it requires nonzero leading minors, which is when the source divides by no zero.
- CsrProduct.Pass1: requires that the scratch arrays, which have the length of a row of A, can hold the columns stored in B; where they cannot the source writes out of range.
- CsrProduct.Multiply: A has at most 2^31 columns, the range of the links between them.
- CsrFormat.CheckedFromCoo: fewer than 2^32 triplets, the range of the counter; what happens after the scan has left the array is not modelled.
- CsrBinop.Binop: what happens after the final scan has left the array is not modelled; the entries of both operands together are fewer than 2^32, as the row pointers of the result have to be.
- CsrProduct.Pass2: mask, next and sums are sequences reassigned element by element, so sharing between them is not a question here.
- The recursion of `expand` through nested sums and products, `mul_expand` and `add_expand`: they only call the two expansions and the dictionary operations proved here.
- `Add::diff`, `Add::subs`, `Mul::diff`, `Mul::subs` and everything in `src/functions.cpp`.
- `LDL` and `fraction_free_LDU`: the same elimination as `LU` and `fraction_free_LU` with the diagonal stored apart.
- `QR` and `cholesky` need square roots; `berkowitz` and the pivoted variants of the fraction-free eliminations are not part of this model.
- Row-major buffers are two-dimensional arrays here; the index arithmetic on them is not modelled.
- The GMP primitives (gcdext, powm, invert, divexact, sqrt) are methods and functions with their mathematical meaning; `std::sort` is an insertion sort on pairs.
- Hash tables are finite maps visited in an arbitrary order, as the order does not show in what is proved.
- Printing, hashing, reference counting, the C and Python interfaces, floating-point and Arb evaluation.
