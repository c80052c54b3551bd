/**
 The one-dimensional synthesis program (z3_smt_barrier.py): the dynamics
 f(x) = x/2, a linear certificate template B_i(x) = c_i0 * 1 + c_i1 * x whose
 coefficients are the solver's unknowns, the query for one chain length k,
 the handling of the solver's answer, and the driver that tries
 k = 0, 1, ..., k_max and stops at the first satisfiable length.

 The solver is an oracle `nat -> Status`: the formula it is asked about for
 chain length k is fixed by k and by the three intervals, so k is all the
 oracle needs. What a satisfiable answer means is stated separately, by
 `SoundOracle`, as a hypothesis of the lemmas that use it.
 */
module Barrier1D {
  import opened Wrappers
  import opened Polynomials
  import opened Ibc
  import opened Extraction

  /** One step of the dynamics, f(x) = x/2. */
  function F(x: real): (y: real)
    ensures y + y == x
  {
    x / 2.0
  }

  /** `ret_monoms`: the monomial vector of the linear template, constant first. */
  function Monoms(x: real): (m: seq<real>)
    ensures m == Powers(2, x)
  {
    assert Pow(x, 1) == x;
    [1.0, x]
  }

  /** `leng`: the number of monomials, hence of coefficients per certificate. */
  const Leng: nat := |Monoms(0.0)|

  /** `Bar(i, x, coeffs)`: the dot product of (1, x) with row i of the coefficient table. */
  function Bar(i: nat, x: real, coeffs: seq<seq<real>>): (r: real)
    requires i < |coeffs| && |coeffs[i]| == Leng
    ensures r == coeffs[i][0] * 1.0 + coeffs[i][1] * x
  {
    DotOfPairs(Monoms(x), coeffs[i]);
    Dot(Monoms(x), coeffs[i])
  }

  /** `np.polyval` of row i reversed evaluates the same certificate as `Bar`. */
  lemma PolyvalOfReversedRowIsBar(i: nat, x: real, coeffs: seq<seq<real>>)
    requires i < |coeffs| && |coeffs[i]| == Leng
    ensures Polyval(Reverse(coeffs[i]), x) == Bar(i, x, coeffs)
  {
    PolyvalOfReverseIsDot(coeffs[i], x);
  }

  /** A one-dimensional region [lo, hi], given in the source as the list [lo, hi]. */
  datatype Interval = Interval(lo: real, hi: real) {
    predicate Contains(x: real) {
      lo <= x <= hi
    }
  }

  function Region(b: Interval): real -> bool {
    x => b.Contains(x)
  }

  /** The chain B_0 .. B_(|coeffs|-1) given by a table; indices past the table are never consulted. */
  function Barriers(coeffs: seq<seq<real>>): (nat, real) -> real {
    (i: nat, x: real) => if i < |coeffs| && |coeffs[i]| == Leng then Bar(i, x, coeffs) else 0.0
  }

  lemma BarriersAt(coeffs: seq<seq<real>>, i: nat, x: real)
    requires i < |coeffs| && |coeffs[i]| == 2
    ensures Barriers(coeffs)(i, x) == coeffs[i][0] + coeffs[i][1] * x
  {
    assert Leng == 2;
  }

  /** The chain read back from extracted rows, each evaluated with `np.polyval`. */
  function PolyBarriers(blocks: seq<seq<real>>): (nat, real) -> real {
    (i: nat, x: real) => if i < |blocks| then Polyval(blocks[i], x) else 0.0
  }

  /** The formula `Bar_cond` built by `IBC(k, Xo, Xu, X)`, with its coefficient variables read from `coeffs`. */
  ghost predicate IbcHolds(coeffs: seq<seq<real>>, k: nat, Xo: Interval, Xu: Interval, X: Interval) {
    IbcCondition(Barriers(coeffs), F, Region(Xo), Region(Xu), Region(X), k)
  }

  /** The solver's answer to one query. */
  datatype Status = Sat(model: Model) | Unsat | Unknown

  /** A certificate chain found by the driver: its length index k and its rows, highest degree first. */
  datatype Certificate = Certificate(k: nat, coeffs: seq<seq<real>>)

  /**
   The result handling of `IBC(k, ...)`: the model when the solver says sat,
   `None` when it says unsat and, by falling off the end of the function,
   `None` when it says unknown.
   */
  function IbcQuery(oracle: nat -> Status, k: nat): (r: Option<Model>)
    ensures r.Some? <==> oracle(k).Sat?
    ensures r.Some? ==> oracle(k) == Sat(r.value)
  {
    match oracle(k)
    case Sat(m) => Some(m)
    case Unsat => None
    case Unknown => None
  }

  /**
   The search loop: for k = 0 .. kmax ask the query of length k; on the first
   model, extract its coefficients and stop. `queried` records the lengths
   asked, in order.
   */
  method FindCertificate(oracle: nat -> Status, kmax: nat) returns (found: Option<Certificate>, queried: seq<nat>)
    ensures forall q :: 0 <= q < |queried| ==> queried[q] == q
    ensures found.Some? ==>
      && found.value.k <= kmax
      && oracle(found.value.k).Sat?
      && (forall k: nat :: k < found.value.k ==> !oracle(k).Sat?)
      && found.value.coeffs == ExtractCoefficients(oracle(found.value.k).model, found.value.k, Leng)
      && |queried| == found.value.k + 1
    ensures found.None? ==>
      && (forall k: nat :: k <= kmax ==> !oracle(k).Sat?)
      && |queried| == kmax + 1
  {
    found := None;
    queried := [];
    var k: nat := 0;
    while k <= kmax
      invariant k <= kmax + 1
      invariant |queried| == k
      invariant forall q :: 0 <= q < k ==> queried[q] == q
      invariant forall k': nat :: k' < k ==> !oracle(k').Sat?
    {
      queried := queried + [k];
      var model := IbcQuery(oracle, k);
      if model.Some? {
        found := Some(Certificate(k, ExtractCoefficients(model.value, k, Leng)));
        return;
      }
      k := k + 1;
    }
  }

  /**
   A truthful solver: a model for length k assigns every coefficient of some
   table of k+1 linear rows, and that table satisfies the query of length k.
   */
  ghost predicate SoundOracle(oracle: nat -> Status, Xo: Interval, Xu: Interval, X: Interval) {
    forall k: nat :: oracle(k).Sat? ==>
      exists t :: Shaped(t, k + 1, Leng) && ModelOf(oracle(k).model, t) && IbcHolds(t, k, Xo, Xu, X)
  }

  /** A solver that only says unsat when no table satisfies the query. */
  ghost predicate CompleteOracle(oracle: nat -> Status, Xo: Interval, Xu: Interval, X: Interval) {
    forall k: nat :: oracle(k).Unsat? ==>
      forall t :: Shaped(t, k + 1, Leng) ==> !IbcHolds(t, k, Xo, Xu, X)
  }

  /**
   End to end: from a truthful solver's model for a length k below ten, the
   extracted rows, evaluated with `np.polyval`, form an IBC of length k.
   */
  lemma ExtractedChainIsIbc(oracle: nat -> Status, Xo: Interval, Xu: Interval, X: Interval, k: nat)
    requires SoundOracle(oracle, Xo, Xu, X)
    requires k < 10 && oracle(k).Sat?
    ensures IbcCondition(PolyBarriers(ExtractCoefficients(oracle(k).model, k, Leng)), F, Region(Xo), Region(Xu), Region(X), k)
  {
    var m := oracle(k).model;
    var t :| Shaped(t, k + 1, Leng) && ModelOf(m, t) && IbcHolds(t, k, Xo, Xu, X);
    ExtractedTableIsIbc(m, t, k, Xo, Xu, X);
  }

  /** A model of a table that satisfies the query yields, after extraction, a chain that satisfies it too. */
  lemma ExtractedTableIsIbc(m: Model, t: seq<seq<real>>, k: nat, Xo: Interval, Xu: Interval, X: Interval)
    requires k < 10 && Shaped(t, k + 1, Leng) && ModelOf(m, t)
    requires IbcHolds(t, k, Xo, Xu, X)
    ensures IbcCondition(PolyBarriers(ExtractCoefficients(m, k, Leng)), F, Region(Xo), Region(Xu), Region(X), k)
  {
    var blocks := ExtractCoefficients(m, k, Leng);
    ExtractedRowsAgree(m, t, k);
    IbcConditionDependsOnChainOnly(PolyBarriers(blocks), Barriers(t), F, Region(Xo), Region(Xu), Region(X), k);
  }

  /** The extracted rows, evaluated with `np.polyval`, are the table's certificates `Bar(i, x)`. */
  lemma ExtractedRowsAgree(m: Model, t: seq<seq<real>>, k: nat)
    requires k < 10 && Shaped(t, k + 1, Leng) && ModelOf(m, t)
    ensures forall i: nat, x :: i <= k ==> PolyBarriers(ExtractCoefficients(m, k, Leng))(i, x) == Barriers(t)(i, x)
  {
    assert Leng == 2;
    ExtractRecoversTable(m, t, Leng);
    var blocks := ExtractCoefficients(m, k, Leng);
    assert blocks == ReverseRows(t);
    forall i: nat, x | i <= k
      ensures PolyBarriers(blocks)(i, x) == Barriers(t)(i, x)
    {
      assert blocks[i] == Reverse(t[i]);
      PolyvalOfReversedRowIsBar(i, x, t);
    }
  }

  /** Safety of a found certificate: no trajectory of f from Xo that stays in X reaches Xu. */
  lemma CertificateIsSafe(oracle: nat -> Status, Xo: Interval, Xu: Interval, X: Interval, cert: Certificate, x0: real, t: nat)
    requires SoundOracle(oracle, Xo, Xu, X)
    requires cert.k < 10 && oracle(cert.k).Sat?
    requires cert.coeffs == ExtractCoefficients(oracle(cert.k).model, cert.k, Leng)
    requires Xo.Contains(x0)
    requires forall s: nat :: s < t ==> X.Contains(Iterate(F, x0, s))
    ensures !Xu.Contains(Iterate(F, x0, t))
  {
    ExtractedChainIsIbc(oracle, Xo, Xu, X, cert.k);
    IbcSafety(PolyBarriers(cert.coeffs), F, Region(Xo), Region(Xu), Region(X), cert.k, x0, t);
  }

  /** The configuration of the program: k_max, the initial, unsafe and state intervals. */
  const KMax: nat := 3
  const Initial: Interval := Interval(2.0, 2.3)
  const Unsafe: Interval := Interval(1.6, 1.9)
  const StateSpace: Interval := Interval(0.0, 3.0)

  /** No single linear certificate exists for the configured intervals: from 3 the state jumps to 1.5. */
  lemma NoSingleLinearBarrier(t: seq<seq<real>>)
    requires Shaped(t, 1, Leng)
    ensures !IbcHolds(t, 0, Initial, Unsafe, StateSpace)
  {
    var B := Barriers(t);
    var a, b := t[0][0], t[0][1];
    assert B(0, 2.0) == a + 2.0 * b;
    assert B(0, 1.9) == a + 1.9 * b;
    assert B(0, 3.0) == a + 3.0 * b;
    assert F(3.0) == 1.5;
    assert B(0, 1.5) == a + 1.5 * b;
    assert Region(Initial)(2.0) && Region(Unsafe)(1.9) && Region(StateSpace)(3.0);
    KmaxZeroIsClassicalBarrier(B, F, Region(Initial), Region(Unsafe), Region(StateSpace));
  }

  /** A chain of two linear certificates for the configured intervals: B_0(x) = 2 - x, B_1(x) = x - 1.5. */
  lemma TwoLinearBarriersSuffice()
    ensures Shaped([[2.0, -1.0], [-1.5, 1.0]], 2, Leng)
    ensures IbcHolds([[2.0, -1.0], [-1.5, 1.0]], 1, Initial, Unsafe, StateSpace)
  {
    var t := [[2.0, -1.0], [-1.5, 1.0]];
    var B := Barriers(t);
    assert Leng == 2;
    assert Initiation(B, Region(Initial)) by {
      forall x | Region(Initial)(x) ensures B(0, x) <= 0.0 {
        BarriersAt(t, 0, x);
      }
    }
    assert Separation(B, Region(Unsafe), 1) by {
      forall x | Region(Unsafe)(x) ensures AllPositive(B, x, 2) {
        BarriersAt(t, 0, x);
        BarriersAt(t, 1, x);
      }
    }
    assert Chained(B, F, Region(StateSpace), 1) by {
      forall x | Region(StateSpace)(x) && B(0, x) <= 0.0 ensures B(1, F(x)) <= 0.0 {
        BarriersAt(t, 0, x);
        BarriersAt(t, 1, F(x));
      }
      assert ChainStep(B, F, Region(StateSpace), 0);
    }
    assert Terminal(B, F, Region(StateSpace), 1) by {
      forall x | Region(StateSpace)(x) && B(1, x) <= 0.0 ensures B(1, F(x)) <= 0.0 {
        BarriersAt(t, 1, x);
        BarriersAt(t, 1, F(x));
      }
    }
  }

  /**
   With a truthful and complete solver that does not answer unknown for
   k = 1, the query of length 0 is not satisfiable and that of length 1 is.
   */
  lemma ConfiguredOracleAnswers(oracle: nat -> Status)
    requires SoundOracle(oracle, Initial, Unsafe, StateSpace)
    requires CompleteOracle(oracle, Initial, Unsafe, StateSpace)
    requires !oracle(1).Unknown?
    ensures !oracle(0).Sat? && oracle(1).Sat?
  {
    forall t | Shaped(t, 1, Leng)
      ensures !IbcHolds(t, 0, Initial, Unsafe, StateSpace)
    {
      NoSingleLinearBarrier(t);
    }
    TwoLinearBarriersSuffice();
  }

  /**
   The program's top level: search up to k_max = 3 over the configured
   intervals. With the answers `ConfiguredOracleAnswers` derives for a
   truthful and complete solver, it stops at k = 1 after asking for k = 0 and 1.
   */
  method SearchConfigured(oracle: nat -> Status) returns (found: Option<Certificate>, queried: seq<nat>)
    requires !oracle(0).Sat? && oracle(1).Sat?
    ensures found.Some? && found.value.k == 1
    ensures found.value.coeffs == ExtractCoefficients(oracle(1).model, 1, Leng)
    ensures queried == [0, 1]
  {
    found, queried := FindCertificate(oracle, KMax);
    assert found.Some? by {
      assert 1 <= KMax;
    }
    assert found.value.k == 1 by {
      assert found.value.k != 0;
      assert !(1 < found.value.k);
    }
    assert queried[0] == 0 && queried[1] == 1;
  }
}
