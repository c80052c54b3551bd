/**
 The four-part Inductive Barrier Certificate (IBC) condition, independent of
 the state space. A chain of certificates is a function `B` with `B(j, x)` the
 value of certificate B_j at state `x`; regions are membership predicates on
 states; `f` is one step of the dynamics.

 A chain B_0 .. B_kmax is an IBC for (f, Xo, Xu, X) when
   1. initiation:  B_0 <= 0 on Xo;
   2. separation:  B_i > 0 on Xu for every i in 0..kmax;
   3. chained inductiveness: for j < kmax, x in X and B_j(x) <= 0 imply B_(j+1)(f(x)) <= 0;
   4. terminal self-inductiveness: x in X and B_kmax(x) <= 0 imply B_kmax(f(x)) <= 0.
 The separation consequent and the chain of clause 3 are built as in the
 source: a running conjunction that starts from `And(True)` and grows one
 conjunct per index.
 */
module Ibc {

  ghost predicate Initiation<S(!new)>(B: (nat, S) -> real, Xo: S -> bool) {
    forall x :: Xo(x) ==> B(0, x) <= 0.0
  }

  /** The running conjunction `And(True, B_0(x) > 0, ..., B_(n-1)(x) > 0)`. */
  predicate AllPositive<S>(B: (nat, S) -> real, x: S, n: nat) {
    if n == 0 then true else AllPositive(B, x, n - 1) && B(n - 1, x) > 0.0
  }

  ghost predicate Separation<S(!new)>(B: (nat, S) -> real, Xu: S -> bool, kmax: nat) {
    forall x :: Xu(x) ==> AllPositive(B, x, kmax + 1)
  }

  /** One clause of the chained condition: B_j hands off to B_(j+1). */
  ghost predicate ChainStep<S(!new)>(B: (nat, S) -> real, f: S -> S, X: S -> bool, j: nat) {
    forall x :: X(x) && B(j, x) <= 0.0 ==> B(j + 1, f(x)) <= 0.0
  }

  /** The running conjunction of `ChainStep` for j = 0 .. n-1. */
  ghost predicate Chained<S(!new)>(B: (nat, S) -> real, f: S -> S, X: S -> bool, n: nat) {
    if n == 0 then true else Chained(B, f, X, n - 1) && ChainStep(B, f, X, n - 1)
  }

  ghost predicate Terminal<S(!new)>(B: (nat, S) -> real, f: S -> S, X: S -> bool, kmax: nat) {
    forall x :: X(x) && B(kmax, x) <= 0.0 ==> B(kmax, f(x)) <= 0.0
  }

  ghost predicate IbcCondition<S(!new)>(B: (nat, S) -> real, f: S -> S, Xo: S -> bool, Xu: S -> bool, X: S -> bool, kmax: nat) {
    && Initiation(B, Xo)
    && Separation(B, Xu, kmax)
    && (Chained(B, f, X, kmax) && Terminal(B, f, X, kmax))
  }

  /** The running conjunction is the conjunction over all indices below `n`. */
  lemma {:induction false} AllPositiveIff<S(!new)>(B: (nat, S) -> real, x: S, n: nat)
    ensures AllPositive(B, x, n) <==> forall i: nat :: i < n ==> B(i, x) > 0.0
  {
    if n > 0 {
      AllPositiveIff(B, x, n - 1);
    }
  }

  lemma {:induction false} ChainedIff<S(!new)>(B: (nat, S) -> real, f: S -> S, X: S -> bool, n: nat)
    ensures Chained(B, f, X, n) <==> forall j: nat :: j < n ==> ChainStep(B, f, X, j)
  {
    if n > 0 {
      ChainedIff(B, f, X, n - 1);
    }
  }

  /** The condition read as four plain quantified statements. */
  lemma IbcConditionIff<S(!new)>(B: (nat, S) -> real, f: S -> S, Xo: S -> bool, Xu: S -> bool, X: S -> bool, kmax: nat)
    ensures IbcCondition(B, f, Xo, Xu, X, kmax) <==>
      && (forall x :: Xo(x) ==> B(0, x) <= 0.0)
      && (forall x, i: nat :: Xu(x) && i <= kmax ==> B(i, x) > 0.0)
      && (forall j: nat, x :: j < kmax && X(x) && B(j, x) <= 0.0 ==> B(j + 1, f(x)) <= 0.0)
      && (forall x :: X(x) && B(kmax, x) <= 0.0 ==> B(kmax, f(x)) <= 0.0)
  {
    forall x | Xu(x)
      ensures AllPositive(B, x, kmax + 1) <==> forall i: nat :: i <= kmax ==> B(i, x) > 0.0
    {
      AllPositiveIff(B, x, kmax + 1);
    }
    assert Separation(B, Xu, kmax) <==> forall x, i: nat :: Xu(x) && i <= kmax ==> B(i, x) > 0.0;
    ChainedIff(B, f, X, kmax);
    if Chained(B, f, X, kmax) {
      forall j: nat, x | j < kmax && X(x) && B(j, x) <= 0.0
        ensures B(j + 1, f(x)) <= 0.0
      {
        assert ChainStep(B, f, X, j);
      }
    } else {
      var j: nat :| j < kmax && !ChainStep(B, f, X, j);
      var x :| X(x) && B(j, x) <= 0.0 && B(j + 1, f(x)) > 0.0;
    }
  }

  /** With kmax = 0 the chained part is vacuous and the condition is the classical single-barrier one. */
  lemma KmaxZeroIsClassicalBarrier<S(!new)>(B: (nat, S) -> real, f: S -> S, Xo: S -> bool, Xu: S -> bool, X: S -> bool)
    ensures Chained(B, f, X, 0)
    ensures IbcCondition(B, f, Xo, Xu, X, 0) <==>
      && (forall x :: Xo(x) ==> B(0, x) <= 0.0)
      && (forall x :: Xu(x) ==> B(0, x) > 0.0)
      && (forall x :: X(x) && B(0, x) <= 0.0 ==> B(0, f(x)) <= 0.0)
  {
    IbcConditionIff(B, f, Xo, Xu, X, 0);
  }

  /** Initiation constrains B_0 alone: chains that agree on B_0 agree on initiation. */
  lemma InitiationOnlyConstrainsFirst<S(!new)>(B: (nat, S) -> real, B': (nat, S) -> real, Xo: S -> bool)
    requires forall x :: B(0, x) == B'(0, x)
    ensures Initiation(B, Xo) <==> Initiation(B', Xo)
  {
  }

  /** The condition for chain length kmax looks at B_0 .. B_kmax only. */
  lemma IbcConditionDependsOnChainOnly<S(!new)>(B: (nat, S) -> real, B': (nat, S) -> real, f: S -> S,
                                          Xo: S -> bool, Xu: S -> bool, X: S -> bool, kmax: nat)
    requires forall i: nat, x :: i <= kmax ==> B(i, x) == B'(i, x)
    ensures IbcCondition(B, f, Xo, Xu, X, kmax) <==> IbcCondition(B', f, Xo, Xu, X, kmax)
  {
    IbcConditionIff(B, f, Xo, Xu, X, kmax);
    IbcConditionIff(B', f, Xo, Xu, X, kmax);
  }

  /** The state after t steps of f from x0. */
  function Iterate<S>(f: S -> S, x0: S, t: nat): S {
    if t == 0 then x0 else f(Iterate(f, x0, t - 1))
  }

  function Min(a: nat, b: nat): nat {
    if a <= b then a else b
  }

  /**
   Along a trajectory that starts in Xo and has stayed in X, the state at time
   t lies in the sublevel set of B_min(t, kmax): initiation gives t = 0, the
   chained clause moves from B_j to B_(j+1), the terminal clause keeps B_kmax.
   */
  lemma {:induction false} SublevelAlongTrajectory<S(!new)>(B: (nat, S) -> real, f: S -> S, Xo: S -> bool, Xu: S -> bool,
                                                     X: S -> bool, kmax: nat, x0: S, t: nat)
    requires IbcCondition(B, f, Xo, Xu, X, kmax)
    requires Xo(x0)
    requires forall s: nat :: s < t ==> X(Iterate(f, x0, s))
    ensures B(Min(t, kmax), Iterate(f, x0, t)) <= 0.0
  {
    if t > 0 {
      SublevelAlongTrajectory(B, f, Xo, Xu, X, kmax, x0, t - 1);
      var y := Iterate(f, x0, t - 1);
      assert X(y);
      if t - 1 < kmax {
        ChainedIff(B, f, X, kmax);
        assert ChainStep(B, f, X, t - 1);
      }
    }
  }

  /** Soundness: no trajectory from Xo that has stayed in X ever enters Xu. */
  lemma IbcSafety<S(!new)>(B: (nat, S) -> real, f: S -> S, Xo: S -> bool, Xu: S -> bool,
                     X: S -> bool, kmax: nat, x0: S, t: nat)
    requires IbcCondition(B, f, Xo, Xu, X, kmax)
    requires Xo(x0)
    requires forall s: nat :: s < t ==> X(Iterate(f, x0, s))
    ensures !Xu(Iterate(f, x0, t))
  {
    var xt := Iterate(f, x0, t);
    SublevelAlongTrajectory(B, f, Xo, Xu, X, kmax, x0, t);
    AllPositiveIff(B, xt, kmax + 1);
  }
}
