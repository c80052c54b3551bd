/**
 The two-dimensional check (check_plot_barrier.py): a fixed chain of two
 cubic certificates for a discretised Lotka-Volterra predator-prey model,
 and the four-check conjunction `Bar_cond` over three boxes. The decimal
 literals of the source are exact reals here.
 */
module LotkaVolterra {
  import opened Ibc

  /** A state: prey population v and predator population p. */
  datatype State = State(v: real, p: real)

  /** `Bar(j, x)`: B_0 for j == 0, and the second cubic for every other index. */
  function Bar(j: nat, s: State): real {
    var v, p := s.v, s.p;
    if j == 0 then
      0.13305 * v * v * v + 0.16826 * v * v * p - 0.11002 * v * p * p + 0.30322 * p * p * p
      - 1.52807 * v * v - 3.55885 * v * p + 2.1532 * p * p + 5.77075 * v + 3.22429 * p + 5.34744
    else
      0.24199 * v * v * v + 0.22602 * v * v * p + 0.14704 * v * p * p + 0.1285 * p * p * p
      + 2.99671 * v * v - 0.13358 * v * p - 0.5105 * p * p - 6.71922 * v + 1.58361 * p - 12.69347
  }

  /** Every index from 1 on denotes the same certificate B_1. */
  lemma BarIndicesCollapse(j: nat, s: State)
    requires 1 <= j
    ensures Bar(j, s) == Bar(1, s)
  {
  }

  const Alpha: real := 1.1  // growth rate of the prey
  const Beta: real := 0.4   // death rate of the prey
  const Gamma: real := 0.4  // death rate of the predator
  const Delta: real := 0.1  // growth rate of the predator
  const T: real := 0.1      // sampling time

  /** One sampling period of the predator-prey dynamics, `f(x)`. */
  function Step(s: State): (r: State)
    ensures r.p == s.p + T * (-Gamma * s.p + Delta * s.v * s.p)
    ensures r.v == 1.11 * s.v - 0.11 * s.v * s.v - 0.04 * s.v * s.p
    ensures r.p == 0.96 * s.p + 0.01 * s.v * s.p
  {
    var v, p := s.v, s.p;
    State(v + T * (Alpha * v * (1.0 - v) - Beta * v * p),
          p + T * (Gamma * p * (p * 0.0 - 1.0) + Delta * v * p))
  }

  /** A box given as the bounds list [vlo, vhi, plo, phi]. */
  datatype Box = Box(vlo: real, vhi: real, plo: real, phi: real) {
    predicate Contains(s: State) {
      vlo <= s.v <= vhi && plo <= s.p <= phi
    }
  }

  function Region(b: Box): State -> bool {
    s => b.Contains(s)
  }

  const Initial: Box := Box(6.0, 7.0, 2.0, 3.0)
  const Unsafe: Box := Box(3.0, 5.0, 0.0, 3.0)
  const StateSpace: Box := Box(0.0, 10.0, 0.0, 5.0)

  ghost predicate InitCheck(Xo: Box) {
    forall s :: Xo.Contains(s) ==> Bar(0, s) <= 0.0
  }

  ghost predicate UnsafeCheck(Xu: Box) {
    forall s :: Xu.Contains(s) ==> Bar(0, s) > 0.0 && Bar(1, s) > 0.0
  }

  ghost predicate ThirdCheck(X: Box) {
    forall s :: X.Contains(s) && Bar(0, s) <= 0.0 ==> Bar(1, Step(s)) <= 0.0
  }

  ghost predicate LastCheck(X: Box) {
    forall s :: X.Contains(s) && Bar(1, s) <= 0.0 ==> Bar(1, Step(s)) <= 0.0
  }

  /** `Bar_cond = And(init_check, unsafe_check, third_check, last_check)`. */
  ghost predicate BarCond(Xo: Box, Xu: Box, X: Box) {
    InitCheck(Xo) && UnsafeCheck(Xu) && ThirdCheck(X) && LastCheck(X)
  }

  /** `Bar_cond` is the general IBC condition for a chain of length kmax = 1. */
  lemma BarCondIsIbcOfLengthOne(Xo: Box, Xu: Box, X: Box)
    ensures BarCond(Xo, Xu, X) <==> IbcCondition(Bar, Step, Region(Xo), Region(Xu), Region(X), 1)
  {
    assert InitCheck(Xo) <==> Initiation(Bar, Region(Xo));
    UnsafeCheckIsSeparation(Xu);
    ThirdCheckIsChain(X);
    assert LastCheck(X) <==> Terminal(Bar, Step, Region(X), 1);
  }

  /** `unsafe_check` is separation for B_0 and B_1. */
  lemma UnsafeCheckIsSeparation(Xu: Box)
    ensures UnsafeCheck(Xu) <==> Separation(Bar, Region(Xu), 1)
  {
    forall s
      ensures Region(Xu)(s) == Xu.Contains(s)
      ensures AllPositive(Bar, s, 2) <==> Bar(0, s) > 0.0 && Bar(1, s) > 0.0
    {
      assert AllPositive(Bar, s, 0);
      assert AllPositive(Bar, s, 1) <==> Bar(0, s) > 0.0;
      assert AllPositive(Bar, s, 2) <==> AllPositive(Bar, s, 1) && Bar(1, s) > 0.0;
    }
  }

  /** `third_check` is the one step of the chain, from B_0 to B_1. */
  lemma ThirdCheckIsChain(X: Box)
    ensures ThirdCheck(X) <==> Chained(Bar, Step, Region(X), 1)
  {
    assert Chained(Bar, Step, Region(X), 1) <==> ChainStep(Bar, Step, Region(X), 0);
  }

  /** Soundness of the checked chain: no trajectory from Xo that stays in X enters Xu. */
  lemma BarCondSafety(Xo: Box, Xu: Box, X: Box, s0: State, t: nat)
    requires BarCond(Xo, Xu, X)
    requires Xo.Contains(s0)
    requires forall u: nat :: u < t ==> X.Contains(Iterate(Step, s0, u))
    ensures !Xu.Contains(Iterate(Step, s0, t))
  {
    BarCondIsIbcOfLengthOne(Xo, Xu, X);
    IbcSafety(Bar, Step, Region(Xo), Region(Xu), Region(X), 1, s0, t);
  }

  /** A state in both the initial and the unsafe box rules `Bar_cond` out: B_0 cannot be both <= 0 and > 0 there. */
  lemma OverlapRulesOutBarCond(Xo: Box, Xu: Box, X: Box, s: State)
    requires Xo.Contains(s) && Xu.Contains(s)
    ensures !BarCond(Xo, Xu, X)
  {
  }

  /**
   The program's boxes Xo = [6, 7] x [2, 3], Xu = [3, 5] x [0, 3] and
   X = [0, 10] x [0, 5] pass that necessary test: the initial and unsafe
   boxes are disjoint, and both lie in the state box.
   */
  lemma ConfiguredBoxes()
    ensures forall s :: Initial.Contains(s) ==> StateSpace.Contains(s) && !Unsafe.Contains(s)
    ensures forall s :: Unsafe.Contains(s) ==> StateSpace.Contains(s)
  {
  }
}
