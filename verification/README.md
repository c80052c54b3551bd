# Inductive barrier certificates: the query, the extraction and the search

This project models how a small Python research code searches for
*Inductive Barrier Certificates* (IBCs) and checks them.

An IBC is a chain of functions B_0 .. B_kmax over the state space. It proves
that a discrete-time system `x(t+1) = f(x(t))` never moves from an initial
region Xo to an unsafe region Xu while it stays inside a state region X.

The two programs modelled are:

- `z3_smt_barrier.py`, the one-dimensional synthesiser. It uses
  `f(x) = x/2` and linear certificates `B_i(x) = c_i0 + c_i1 * x`, and asks
  an SMT solver for coefficients that satisfy the four IBC clauses. It tries
  chain lengths k = 0 .. k_max in turn. From the first satisfiable answer it
  reads back one coefficient row per certificate: it sorts the model's
  variables by name, cuts the result into blocks and reverses each block for
  `np.polyval`.
- `check_plot_barrier.py`, the two-dimensional check. It has a fixed chain
  of two cubic certificates for a sampled Lotka-Volterra predator-prey
  model, and states the four-check conjunction `Bar_cond` over three boxes.

Modules:

- `Ibc` (ibc.dfy):
  - the four-part IBC condition, generic in the state type. Regions are
    membership predicates and `B(j, x)` is the value of B_j at x;
  - the separation conjunction and the chain of handoffs are built as
    running conjunctions that start from `And(True)`, as in the source;
  - lemmas that read the condition as plain quantified clauses;
  - the soundness theorem: a trajectory that starts in Xo and stays in X
    never reaches Xu.
- `Polynomials` (polynomials.dfy): `np.dot`, `[::-1]` and `np.polyval`
  (Horner's rule, highest degree first), as sequence functions over `real`.
- `Strings` (strings.dfy):
  - `str(n)` for natural numbers;
  - Python's string order: lexicographic by code point, with a proper
    prefix sorting first.
- `Extraction` (extraction.dfy):
  - coefficient names `"coeff<i>,<j>"`;
  - a model as a list of (name, value) pairs in the solver's enumeration
    order;
  - `sorted(..., key=str)`, clamped slicing, the blocks of `leng` values
    and their reversal.
- `Barrier1D` (barrier1d.dfy):
  - `f`, `ret_monoms`, `Bar`;
  - the query for chain length k and the handling of the solver's answer;
  - the search driver;
  - the configured example: k_max = 3, Xo = [2, 2.3], Xu = [1.6, 1.9],
    X = [0, 3].
- `LotkaVolterra` (lotka_volterra.dfy): the cubic chain, the step function,
  the boxes and `Bar_cond`.
- `Wrappers` (wrappers.dfy): `Option`.

The solver is an oracle `nat -> Status`, with `Status = Sat(model) | Unsat | Unknown`.
The query for chain length k is fixed by k and by the three configured
intervals, so k is all the oracle takes. What its answers mean is stated by
two hypotheses, which the lemmas that rely on them take as preconditions:

- `SoundOracle`: a sat model assigns every coefficient of some table, and
  that table satisfies the query.
- `CompleteOracle`: unsat means that no table satisfies the query.

## Model

| member | source | states |
|---|---|---|
| Barrier1D.F | z3_smt_barrier.py:7-8 | one step of the 1-D dynamics halves the state: f(x) + f(x) == x |
| Barrier1D.Monoms | z3_smt_barrier.py:11-12 | the template's monomial vector is (1, x), the first two powers of x |
| Barrier1D.Bar | z3_smt_barrier.py:15-16 | B_i(x), the dot product of (1, x) with row i, equals coeffs[i][0]*1 + coeffs[i][1]*x |
| Barrier1D.Barriers | z3_smt_barrier.py:15-16 | defines the chain B_0 .. B_k given by a coefficient table: B_i(x) is `Bar(i, x, coeffs)` for every row of the table |
| Barrier1D.BarriersAt | z3_smt_barrier.py:15-16 | within the table, the chain read from a coefficient table gives B_i(x) = c_i0 + c_i1*x |
| Barrier1D.PolyvalOfReversedRowIsBar | z3_smt_barrier.py:102-106 | np.polyval of row i reversed evaluates B_i, the dot-product template, at every real x |
| Polynomials.Dot | z3_smt_barrier.py:16 | defines `np.dot` of two equal-length vectors as the sum of the products of their entries |
| Polynomials.Polyval | z3_smt_barrier.py:106 | defines `np.polyval` as Horner's rule, with coefficients from the highest degree down to the constant term |
| Polynomials.PolyvalOfReverseIsDot | z3_smt_barrier.py:102-106 | for rows of any length, polyval of the reversed row equals the dot product of (1, x, ..., x^(n-1)) with the row |
| Polynomials.PolyvalOfReverse | z3_smt_barrier.py:102-106 | polyval of a reversed lowest-degree-first row is the row's polynomial, evaluated lowest degree first |
| Polynomials.Reverse | z3_smt_barrier.py:102 | `[::-1]` keeps the length and puts entry n-1-i at position i |
| Strings.NatToString | z3_smt_barrier.py:32 | `str(i)` for a natural number has at least one character, all of them decimal digits, and has exactly one digit when i < 10 |
| Strings.LexLess | z3_smt_barrier.py:97 | defines Python's `<` on strings: the first differing code point decides, and a proper prefix sorts first |
| Strings.ParseNatToString | z3_smt_barrier.py:32 | the decimal rendering str(i) of a natural number reads back as i |
| Strings.NatToStringInjective | z3_smt_barrier.py:32 | distinct row or column numbers render as distinct strings |
| Strings.LexLessTotal | z3_smt_barrier.py:97 | Python's string order compares any two distinct strings |
| Strings.LexLessTransitive | z3_smt_barrier.py:97 | Python's strict string order is transitive |
| Strings.LexLessCommonPrefix | z3_smt_barrier.py:97 | a shared prefix such as "coeff" does not change how two names compare |
| Extraction.CoeffName | z3_smt_barrier.py:32 | defines the name `"coeff" + str(i) + "," + str(j)` of the solver variable for coefficient j of B_i |
| Extraction.CoeffNameInjective | z3_smt_barrier.py:28-34 | "coeff"+str(i)+","+str(j) names determine (i, j): every coefficient is its own solver variable |
| Extraction.CoefficientNames | z3_smt_barrier.py:28-34 | the declared names form kmax+1 rows of `length` names each: entry (i, j) is the name of coefficient j of B_i, and the names are pairwise distinct |
| Extraction.DeclaredNamesInRowMajorOrder | z3_smt_barrier.py:28-34 | entry r*leng + j of the declaration-order pairs that a model permutes is the declared variable of coefficient j of B_r, with that coefficient's value |
| Extraction.CoeffNameOrder | z3_smt_barrier.py:32 | for one-digit indices, name order is exactly (row, column) order, in both directions |
| Extraction.SortByName | z3_smt_barrier.py:97 | sorting by name gives a name-sorted permutation of the model |
| Extraction.SortedPermutationIsUnique | z3_smt_barrier.py:97 | a name-sorted permutation of a model with distinct sorted names is that model's unique sorted order |
| Extraction.Slice | z3_smt_barrier.py:102 | `s[lo:hi]` with lo <= hi and lo <= len(s) is `s[lo:min(hi, len(s))]`, clamping hi to the end. When lo >= len(s) or hi <= lo it is empty |
| Extraction.ExtractCoefficients | z3_smt_barrier.py:97-103 | extraction yields exactly k+1 blocks of at most leng values, and exactly leng values each when the model has (k+1)*leng pairs |
| Extraction.AssignmentsStrictlySorted | z3_smt_barrier.py:28-34 | with at most ten rows of at most ten entries, declaration order is strictly sorted by name |
| Extraction.ExtractRecoversTable | z3_smt_barrier.py:97-103 | round trip: for at most ten rows of at most ten coefficients, in any model order, block i is row i's coefficients in column order, reversed |
| Extraction.NameOrderBreaksAtTen | z3_smt_barrier.py:97 | "coeff10,j" (and every "coeff1x,j") sorts before "coeff2,j'" |
| Extraction.RowMajorOrderLostBeyondTenRows | z3_smt_barrier.py:97-103 | with eleven or more rows, declaration order is not name-sorted, and sorting any model of the table does not give it back |
| Extraction.ColumnOrder | z3_smt_barrier.py:97 | within one row, names with one-digit columns sort in column order, in both directions |
| Extraction.RowTenNameOrder | z3_smt_barrier.py:97 | the names of row 10 sort after those of rows 0 and 1 and before those of rows 2 .. 9 |
| Extraction.SortElevenRows | z3_smt_barrier.py:97 | for an eleven-row table with at most ten entries per row, sorting any model by name lists rows 0, 1, 10, 2, ..., 9, each in column order |
| Extraction.ElevenRowsMisplaceBlockTwo | z3_smt_barrier.py:97-106 | with eleven rows of at most ten entries, in any model order, block 2, which the program evaluates as B_2, holds the coefficients of B_10 |
| Ibc.IbcCondition | z3_smt_barrier.py:41-69 | defines `Bar_cond` over any state type: initiation on Xo, the separation conjunction on Xu, the chained clauses for j < kmax and the terminal clause on X |
| Ibc.AllPositiveIff | z3_smt_barrier.py:46-48 | the running conjunction from And(True) over B_0 .. B_(n-1) holds exactly when every B_i with i < n is positive |
| Ibc.ChainedIff | z3_smt_barrier.py:55-60 | the running conjunction of chained clauses holds exactly when B_j hands off to B_(j+1) for every j < kmax |
| Ibc.IbcConditionIff | z3_smt_barrier.py:41-69 | the conjunction Bar_cond is equivalent to the four plain clauses: initiation, separation, chained and terminal |
| Ibc.KmaxZeroIsClassicalBarrier | z3_smt_barrier.py:55-66 | with kmax = 0 the chained part is vacuous, and the condition is the classical single-barrier condition |
| Ibc.InitiationOnlyConstrainsFirst | z3_smt_barrier.py:41-43 | initiation constrains B_0 only: chains that agree on B_0 agree on initiation |
| Ibc.IbcConditionDependsOnChainOnly | z3_smt_barrier.py:41-69 | the condition of length kmax depends only on B_0 .. B_kmax |
| Ibc.SublevelAlongTrajectory | z3_smt_barrier.py:41-66 | along a trajectory from Xo that stays in X, the state at time t has B_min(t,kmax) <= 0 |
| Ibc.IbcSafety | z3_smt_barrier.py:41-69 | soundness: if the condition holds, no trajectory from Xo that stays in X enters Xu |
| Barrier1D.IbcQuery | z3_smt_barrier.py:77-84 | the query yields a model exactly when the answer is sat, and that model is the solver's. Unsat and unknown both give None |
| Barrier1D.FindCertificate | z3_smt_barrier.py:91-121 | the driver asks k = 0, 1, ... in order. It returns the smallest k <= k_max whose answer is sat, with that model's extracted rows, and asks no larger k. Otherwise no k <= k_max is sat and all were asked |
| Barrier1D.ExtractedRowsAgree | z3_smt_barrier.py:97-106 | for a model of a table with at most ten rows, the extracted blocks evaluated by polyval are the table's certificates B_0 .. B_k |
| Barrier1D.ExtractedTableIsIbc | z3_smt_barrier.py:92-106 | extraction preserves the IBC condition: the chain read back from a model of a satisfying table satisfies it |
| Barrier1D.ExtractedChainIsIbc | z3_smt_barrier.py:92-106 | from a truthful solver's sat model for a length k below ten, the extracted and evaluated chain is an IBC of length k |
| Barrier1D.CertificateIsSafe | z3_smt_barrier.py:86-106 | a certificate the driver reports guarantees that no trajectory of f/2 from Xo that stays in X reaches Xu |
| Barrier1D.NoSingleLinearBarrier | z3_smt_barrier.py:86-89 | for the configured intervals, no linear single barrier (k = 0) satisfies the query |
| Barrier1D.TwoLinearBarriersSuffice | z3_smt_barrier.py:86-89 | for the configured intervals, B_0(x) = 2 - x and B_1(x) = x - 1.5 satisfy the query of length 1 |
| Barrier1D.ConfiguredOracleAnswers | z3_smt_barrier.py:86-92 | a truthful, complete solver that gives a definite answer at k = 1 answers unsat (or unknown) at k = 0 and sat at k = 1 |
| Barrier1D.SearchConfigured | z3_smt_barrier.py:86-121 | with those answers, the configured run (k_max = 3) stops at k = 1 after asking k = 0 and k = 1, and returns that model's extracted rows |
| LotkaVolterra.Bar | check_plot_barrier.py:10-16 | defines the two cubics in v and p with the source's coefficients: the first for j = 0, the second otherwise |
| LotkaVolterra.BarIndicesCollapse | check_plot_barrier.py:10-16 | every index j >= 1 denotes the second cubic B_1 |
| LotkaVolterra.Step | check_plot_barrier.py:19-31 | because p*0 - 1 = -1, the predator update is p + T*(-gamma*p + delta*v*p). With the constants substituted, v' = 1.11v - 0.11v^2 - 0.04vp and p' = 0.96p + 0.01vp |
| LotkaVolterra.Box.Contains | check_plot_barrier.py:44 | a state is in the box [vlo, vhi, plo, phi] exactly when vlo <= v <= vhi and plo <= p <= phi, the same test for Xo, Xu and X |
| LotkaVolterra.BarCond | check_plot_barrier.py:62 | defines `Bar_cond` as the conjunction of init_check, unsafe_check, third_check and last_check |
| LotkaVolterra.UnsafeCheckIsSeparation | check_plot_barrier.py:48-51 | unsafe_check (B_0 > 0 and B_1 > 0 on the Xu box) is the general separation clause for kmax = 1 |
| LotkaVolterra.ThirdCheckIsChain | check_plot_barrier.py:53-56 | third_check (B_0 <= 0 implies B_1 after f <= 0 on the X box) is the general chained clause for kmax = 1 |
| LotkaVolterra.BarCondIsIbcOfLengthOne | check_plot_barrier.py:43-62 | Bar_cond holds exactly when the general IBC condition with kmax = 1 holds over the three boxes |
| LotkaVolterra.BarCondSafety | check_plot_barrier.py:62 | if Bar_cond holds, no Lotka-Volterra trajectory from the Xo box that stays in the X box enters the Xu box |
| LotkaVolterra.OverlapRulesOutBarCond | check_plot_barrier.py:43-51 | if some state lies in both the Xo box and the Xu box, Bar_cond fails: init_check and unsafe_check contradict each other there |
| LotkaVolterra.ConfiguredBoxes | check_plot_barrier.py:39-41 | the program's boxes Xo = [6, 7] x [2, 3] and Xu = [3, 5] x [0, 3] are disjoint, and both lie in X = [0, 10] x [0, 5] |

## Left out

- The SMT solver is left out: building `ForAll` formulas, `Solver`, `check` and `model`, and deciding quantified nonlinear real arithmetic. It is an oracle, and `SoundOracle`/`CompleteOracle` describe its answers as hypotheses. The model does not prove that the Lotka-Volterra coefficients satisfy `Bar_cond`. `BarCondSafety` and `BarCondIsIbcOfLengthOne` say what follows if they do.
- `realToFloat` (z3_smt_barrier.py:18-20) is left out because it is a floating-point conversion. Coefficients stay exact `real`s, and `np.polyval` is evaluated exactly.
- Plotting, grids, colours, `savefig`/`show`, `time.time` and `print` are left out: they are I/O with no bearing on the result.
- The state-variable list `xvar` and `dim` are left out. The universally quantified state is the bound variable of the predicates.
- The `length` hyperparameter of `IBC` is left out. It defaults to `leng`, and the program never passes another value. `Bar` requires rows of `Leng` = 2 entries, because a different length makes `np.dot` fail. `ExtractCoefficients` still takes any block length.
- Barrier1D.SoundOracle: the model is assumed to hold the table's coefficients and nothing else, because `ModelOf` is multiset equality. The program meets the "nothing else" half: its only other variable, the state `x0`, is always bound by `ForAll`, so it never appears in a model. The model is also assumed to assign every declared coefficient. Z3 can leave an unconstrained variable out of a model. Extraction handles a short model through slice clamping (`Slice`, `ExtractCoefficients`), but the round trip is only proved for complete models.
- Extraction.ExtractRecoversTable: proved for at most ten rows and ten columns only. For eleven or more rows the property is false: `RowMajorOrderLostBeyondTenRows` proves it is lost, and `ElevenRowsMisplaceBlockTwo` shows that block 2 then holds B_10's coefficients. The program's k_max = 3 stays inside the proved range.
- Barrier1D.SearchConfigured: takes the solver's answers for k = 0 and k = 1 as preconditions. `ConfiguredOracleAnswers` derives those answers from a truthful, complete solver.
- A region whose lower bound exceeds its upper bound is not rejected by the code. It is just an empty interval or box, and the model keeps it that way.
- LotkaVolterra.BarCondSafety: stated for arbitrary boxes, so the program's boxes are one instance of it. No separate lemma restates it with the three configured boxes substituted.
