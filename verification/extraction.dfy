/**
 Naming of the solver's coefficient variables and the reconstruction of one
 coefficient row per certificate from a satisfying model
 (z3_smt_barrier.py, lines 28-34 and 96-106).

 The variable for monomial j of certificate B_i is named "coeff<i>,<j>".
 A model is read as a list of (name, value) pairs in the solver's own
 enumeration order; the pairs are sorted by name as Python compares strings,
 cut into consecutive blocks of `leng` pairs, and each block's values are
 reversed so that they run from the highest degree down.
 */
module Extraction {
  import opened Strings
  import opened Polynomials

  /** A satisfying assignment: each declared variable's name with its value, in enumeration order. */
  type Model = seq<(string, real)>

  /** The name `"coeff" + str(i) + "," + str(j)` of the variable for coefficient j of B_i. */
  function CoeffName(i: nat, j: nat): string {
    "coeff" + NatToString(i) + "," + NatToString(j)
  }

  /** The comma after a digit string sits where the digits end, so shorter and longer digit prefixes differ. */
  lemma CommaEndsDigits(a: string, b: string, a': string, b': string)
    requires AllDigits(a) && AllDigits(a') && |a| < |a'|
    ensures a + "," + b != a' + "," + b'
  {
    assert (a + "," + b)[|a|] == ',';
    assert (a' + "," + b')[|a|] == a'[|a|];
  }

  /** Different (i, j) give different names, so every coefficient is its own solver variable. */
  lemma CoeffNameInjective(i: nat, j: nat, i': nat, j': nat)
    ensures CoeffName(i, j) == CoeffName(i', j') ==> i == i' && j == j'
  {
    var a, b := NatToString(i), NatToString(j);
    var a', b' := NatToString(i'), NatToString(j');
    if CoeffName(i, j) == CoeffName(i', j') {
      var s, s' := a + "," + b, a' + "," + b';
      assert CoeffName(i, j) == "coeff" + s && CoeffName(i', j') == "coeff" + s';
      assert s == (CoeffName(i, j))[5..] == s';
      if |a| < |a'| {
        CommaEndsDigits(a, b, a', b');
        assert false;
      } else if |a'| < |a| {
        CommaEndsDigits(a', b', a, b);
        assert false;
      }
      assert a == s[..|a|] == s'[..|a'|] == a';
      assert b == s[|a| + 1..] == s'[|a'| + 1..] == b';
      NatToStringInjective(i, i');
      NatToStringInjective(j, j');
    }
  }

  /** The table of variable names declared for a chain of kmax+1 certificates with `length` monomials each. */
  function CoefficientNames(kmax: nat, length: nat): (names: seq<seq<string>>)
    ensures |names| == kmax + 1
    ensures forall i :: 0 <= i < |names| ==> |names[i]| == length
    ensures forall i, j :: 0 <= i < |names| && 0 <= j < length ==> names[i][j] == CoeffName(i, j)
    ensures forall i, j, i', j' ::
      (0 <= i < |names| && 0 <= j < length && 0 <= i' < |names| && 0 <= j' < length &&
       names[i][j] == names[i'][j']) ==> i == i' && j == j'
  {
    var names := seq(kmax + 1, i requires 0 <= i <= kmax => seq(length, j requires 0 <= j < length => CoeffName(i, j)));
    assert forall i, j, i', j' ::
      (0 <= i <= kmax && 0 <= j < length && 0 <= i' <= kmax && 0 <= j' < length &&
       names[i][j] == names[i'][j']) ==> i == i' && j == j' by {
      forall i, j, i', j' | 0 <= i <= kmax && 0 <= j < length && 0 <= i' <= kmax && 0 <= j' < length
        ensures names[i][j] == names[i'][j'] ==> i == i' && j == j'
      {
        CoeffNameInjective(i, j, i', j');
      }
    }
    names
  }

  /** A coefficient table with `rows` rows of `cols` entries each. */
  predicate Shaped(t: seq<seq<real>>, rows: nat, cols: nat) {
    |t| == rows && forall i :: 0 <= i < |t| ==> |t[i]| == cols
  }

  /** The (name, value) pairs of row `row` of a table, which holds the coefficients of B_i. */
  function RowAssignments(i: nat, row: seq<real>): Model {
    seq(|row|, j requires 0 <= j < |row| => (CoeffName(i, j), row[j]))
  }

  /** The pairs of all rows, row i0 first, each row in column order. */
  function AssignmentsFrom(t: seq<seq<real>>, i0: nat): Model
    decreases |t|
  {
    if |t| == 0 then [] else RowAssignments(i0, t[0]) + AssignmentsFrom(t[1..], i0 + 1)
  }

  /** The pairs of a whole table in declaration (row-major) order. */
  function Assignments(t: seq<seq<real>>): Model {
    AssignmentsFrom(t, 0)
  }

  /** `m` assigns exactly the table `t`'s values to their variables, in some order. */
  predicate ModelOf(m: Model, t: seq<seq<real>>) {
    multiset(m) == multiset(Assignments(t))
  }

  predicate SortedByName(s: Model) {
    forall a, b :: 0 <= a < b < |s| ==> LexLe(s[a].0, s[b].0)
  }

  predicate StrictlySortedByName(s: Model) {
    forall a, b :: 0 <= a < b < |s| ==> LexLess(s[a].0, s[b].0)
  }

  function InsertByName(p: (string, real), s: Model): (r: Model)
    requires SortedByName(s)
    ensures SortedByName(r)
    ensures multiset(r) == multiset(s) + multiset{p}
    ensures forall x :: x in r ==> x == p || x in s
    decreases |s|
  {
    if |s| == 0 then [p]
    else if LexLe(p.0, s[0].0) then
      assert forall b :: 0 <= b < |s| ==> LexLe(p.0, s[b].0) by {
        forall b | 0 <= b < |s| ensures LexLe(p.0, s[b].0) {
          if b > 0 {
            LexLeTransitive(p.0, s[0].0, s[b].0);
          }
        }
      }
      [p] + s
    else
      LexLessTotal(p.0, s[0].0);
      var r' := InsertByName(p, s[1..]);
      assert s == [s[0]] + s[1..];
      assert forall x :: x in r' ==> LexLe(s[0].0, x.0);
      [s[0]] + r'
  }

  /** `sorted(..., key = name)`: a sorted permutation of the model. */
  function SortByName(m: Model): (r: Model)
    ensures SortedByName(r)
    ensures multiset(r) == multiset(m)
    decreases |m|
  {
    if |m| == 0 then []
    else
      assert m == [m[0]] + m[1..];
      InsertByName(m[0], SortByName(m[1..]))
  }

  function MinNat(a: nat, b: nat): nat {
    if a <= b then a else b
  }

  /** Python's `s[lo:hi]` for non-negative bounds: both bounds are clamped to the length. */
  function Slice<T>(s: seq<T>, lo: nat, hi: nat): (r: seq<T>)
    ensures lo <= hi && lo <= |s| ==> r == s[lo..MinNat(hi, |s|)]
    ensures |s| <= lo || hi <= lo ==> r == []
  {
    var a, b := MinNat(lo, |s|), MinNat(hi, |s|);
    if a <= b then s[a..b] else []
  }

  function Values(s: Model): (v: seq<real>)
    ensures |v| == |s|
  {
    seq(|s|, q requires 0 <= q < |s| => s[q].1)
  }

  /**
   The coefficient rows cut from a sorted model: `count` blocks of `leng`
   pairs starting at `start`, each block's values reversed.
   */
  function Blocks(sorted: Model, start: nat, count: nat, leng: nat): (blocks: seq<seq<real>>)
    ensures |blocks| == count
    ensures forall i :: 0 <= i < count ==> |blocks[i]| <= leng
    ensures start + count * leng <= |sorted| ==> forall i :: 0 <= i < count ==> |blocks[i]| == leng
    decreases count
  {
    if count == 0 then []
    else
      assert start + count * leng == (start + leng) + (count - 1) * leng;
      [Reverse(Values(Slice(sorted, start, start + leng)))] + Blocks(sorted, start + leng, count - 1, leng)
  }

  /** Rows for B_0 .. B_k, each highest degree first, from a satisfying model. */
  function ExtractCoefficients(m: Model, k: nat, leng: nat): (blocks: seq<seq<real>>)
    ensures |blocks| == k + 1
    ensures forall i :: 0 <= i < |blocks| ==> |blocks[i]| <= leng
    ensures (k + 1) * leng <= |m| ==> Shaped(blocks, k + 1, leng)
  {
    var sorted := SortByName(m);
    assert |sorted| == |multiset(sorted)| == |multiset(m)| == |m|;
    Blocks(sorted, 0, k + 1, leng)
  }

  function ReverseRows(t: seq<seq<real>>): seq<seq<real>> {
    seq(|t|, i requires 0 <= i < |t| => Reverse(t[i]))
  }

  /** The first entries of a sorted and a strictly sorted permutation of one model coincide. */
  lemma SortedHeadsAgree(r: Model, e: Model)
    requires SortedByName(r) && StrictlySortedByName(e)
    requires multiset(r) == multiset(e) && 0 < |r|
    ensures 0 < |e| && r[0] == e[0]
  {
    assert r[0] in multiset(e);
    var j :| 0 <= j < |e| && e[j] == r[0];
    assert e[0] in multiset(r);
    var i :| 0 <= i < |r| && r[i] == e[0];
    assert LexLe(r[0].0, e[0].0) by {
      if i > 0 {
        assert LexLe(r[0].0, r[i].0);
      }
    }
    assert j > 0 ==> LexLess(e[0].0, e[j].0);
    LexLessIrreflexive(e[0].0);
    LexLessAsymmetric(r[0].0, e[0].0);
    assert j == 0;
  }

  lemma MultisetOfTails(r: Model, e: Model)
    requires multiset(r) == multiset(e) && 0 < |r| && 0 < |e| && r[0] == e[0]
    ensures multiset(r[1..]) == multiset(e[1..])
  {
    assert r == [r[0]] + r[1..] && e == [e[0]] + e[1..];
    assert multiset(r[1..]) == multiset(r) - multiset{r[0]};
    assert multiset(e[1..]) == multiset(e) - multiset{e[0]};
  }

  /** Two permutations of one model that are both sorted by name, one strictly, are the same sequence. */
  lemma {:induction false} SortedPermutationIsUnique(r: Model, e: Model)
    requires SortedByName(r) && StrictlySortedByName(e)
    requires multiset(r) == multiset(e)
    ensures r == e
    decreases |r|
  {
    assert |r| == |multiset(r)| == |multiset(e)| == |e|;
    if |r| > 0 {
      SortedHeadsAgree(r, e);
      MultisetOfTails(r, e);
      assert SortedByName(r[1..]);
      assert StrictlySortedByName(e[1..]);
      SortedPermutationIsUnique(r[1..], e[1..]);
      assert r == [r[0]] + r[1..] && e == [e[0]] + e[1..];
    }
  }

  /** With one-digit indices a name is "coeff", the row digit, a comma and the column digit. */
  lemma CoeffNameOneDigit(i: nat, j: nat)
    requires i < 10 && j < 10
    ensures CoeffName(i, j) == "coeff" + [DigitChar(i), ',', DigitChar(j)]
  {
  }

  /** For one-digit indices the string order of names is the (row, column) order. */
  lemma CoeffNameOrder(i: nat, j: nat, i': nat, j': nat)
    requires i < 10 && j < 10 && i' < 10 && j' < 10
    ensures LexLess(CoeffName(i, j), CoeffName(i', j')) <==> i < i' || (i == i' && j < j')
  {
    var u, u' := [DigitChar(i), ',', DigitChar(j)], [DigitChar(i'), ',', DigitChar(j')];
    CoeffNameOneDigit(i, j);
    CoeffNameOneDigit(i', j');
    LexLessCommonPrefix("coeff", u, u');
    DigitCharMonotone(i, i');
    DigitCharMonotone(j, j');
    var w, w' := [DigitChar(j)], [DigitChar(j')];
    var v, v' := [','] + w, [','] + w';
    assert u == [DigitChar(i)] + v && u' == [DigitChar(i')] + v';
    assert w[1..] == [] && w'[1..] == [];
    assert !LexLess(w[1..], w'[1..]);
    assert LexLess(w, w') <==> DigitChar(j) < DigitChar(j');
    assert v[1..] == w && v'[1..] == w';
    assert LexLess(v, v') <==> DigitChar(j) < DigitChar(j');
    assert u[1..] == v && u'[1..] == v';
    assert DigitChar(i) == DigitChar(i') <==> i == i' by {
      assert DigitValue(DigitChar(i)) == i && DigitValue(DigitChar(i')) == i';
    }
    assert LexLess(u, u') <==> DigitChar(i) < DigitChar(i') || (DigitChar(i) == DigitChar(i') && LexLess(v, v'));
  }

  /** The pairs of rows i0 .. i0+|t|-1 carry names of those rows only. */
  lemma {:induction false} AssignmentsFromNames(t: seq<seq<real>>, i0: nat, leng: nat)
    requires forall i :: 0 <= i < |t| ==> |t[i]| == leng
    ensures forall q :: 0 <= q < |AssignmentsFrom(t, i0)| ==>
      exists i: nat, j: nat :: i0 <= i < i0 + |t| && j < leng && AssignmentsFrom(t, i0)[q].0 == CoeffName(i, j)
    decreases |t|
  {
    if |t| == 0 {
      assert AssignmentsFrom(t, i0) == [];
    } else {
      var row, rest := RowAssignments(i0, t[0]), AssignmentsFrom(t[1..], i0 + 1);
      AssignmentsFromNames(t[1..], i0 + 1, leng);
      var s: Model := row + rest;
      assert AssignmentsFrom(t, i0) == s;
      assert |row| == leng;
      forall q | 0 <= q < |AssignmentsFrom(t, i0)|
        ensures exists i: nat, j: nat :: i0 <= i < i0 + |t| && j < leng && AssignmentsFrom(t, i0)[q].0 == CoeffName(i, j)
      {
        assert AssignmentsFrom(t, i0)[q] == s[q];
        if q < leng {
          assert s[q].0 == CoeffName(i0, q);
          assert i0 <= i0 < i0 + |t| && q < leng;
        } else {
          assert s[q] == rest[q - leng];
          var i: nat, j: nat :| i0 + 1 <= i < i0 + 1 + |t[1..]| && j < leng && rest[q - leng].0 == CoeffName(i, j);
          assert i0 <= i < i0 + |t| && j < leng && s[q].0 == CoeffName(i, j);
        }
      }
    }
  }

  lemma {:induction false} AssignmentsFromLength(t: seq<seq<real>>, i0: nat, leng: nat)
    requires forall i :: 0 <= i < |t| ==> |t[i]| == leng
    ensures |AssignmentsFrom(t, i0)| == |t| * leng
    decreases |t|
  {
    if |t| > 0 {
      AssignmentsFromLength(t[1..], i0 + 1, leng);
      MulStep(|t|, leng);
    }
  }

  lemma MulStep(r: nat, leng: nat)
    requires 0 < r
    ensures r * leng == leng + (r - 1) * leng
  {
  }

  /** Entry r*leng + j of the pairs of rows i0 .. is coefficient j of row i0 + r. */
  lemma {:induction false} AssignmentsFromAt(t: seq<seq<real>>, i0: nat, leng: nat, r: nat, j: nat)
    requires forall i :: 0 <= i < |t| ==> |t[i]| == leng
    requires r < |t| && j < leng
    ensures r * leng + j < |AssignmentsFrom(t, i0)|
    ensures AssignmentsFrom(t, i0)[r * leng + j] == (CoeffName(i0 + r, j), t[r][j])
    decreases r
  {
    var row, rest := RowAssignments(i0, t[0]), AssignmentsFrom(t[1..], i0 + 1);
    var s: Model := row + rest;
    assert |row| == leng;
    if r > 0 {
      AssignmentsFromAt(t[1..], i0 + 1, leng, r - 1, j);
      MulStep(r, leng);
      assert s[r * leng + j] == rest[(r - 1) * leng + j];
    } else {
      AssignmentsFromLength(t, i0, leng);
      assert s[j] == row[j];
    }
  }

  /** With at most ten rows of at most ten entries, declaration order is strictly name-sorted. */
  lemma {:induction false} AssignmentsStrictlySorted(t: seq<seq<real>>, i0: nat, leng: nat)
    requires forall i :: 0 <= i < |t| ==> |t[i]| == leng
    requires i0 + |t| <= 10 && leng <= 10
    ensures StrictlySortedByName(AssignmentsFrom(t, i0))
    decreases |t|
  {
    if |t| > 0 {
      var row, rest := RowAssignments(i0, t[0]), AssignmentsFrom(t[1..], i0 + 1);
      AssignmentsStrictlySorted(t[1..], i0 + 1, leng);
      AssignmentsFromNames(t[1..], i0 + 1, leng);
      var s: Model := row + rest;
      forall a, b | 0 <= a < b < |s|
        ensures LexLess(s[a].0, s[b].0)
      {
        if b < leng {
          CoeffNameOrder(i0, a, i0, b);
        } else if a < leng {
          assert s[b] == rest[b - leng];
          var i: nat, j: nat :| i0 + 1 <= i < i0 + |t| && j < leng && rest[b - leng].0 == CoeffName(i, j);
          CoeffNameOrder(i0, a, i, j);
        } else {
          assert s[a] == rest[a - leng] && s[b] == rest[b - leng];
        }
      }
    }
  }

  /** Cutting the declaration-order pairs into blocks of `leng` gives back every row, reversed. */
  lemma {:induction false} BlocksOfAssignments(pre: Model, t: seq<seq<real>>, i0: nat, leng: nat)
    requires forall i :: 0 <= i < |t| ==> |t[i]| == leng
    ensures Blocks(pre + AssignmentsFrom(t, i0), |pre|, |t|, leng) == ReverseRows(t)
    decreases |t|
  {
    if |t| > 0 {
      var row, rest := RowAssignments(i0, t[0]), AssignmentsFrom(t[1..], i0 + 1);
      var s: Model := pre + (row + rest);
      assert s[|pre|..|pre| + leng] == row;
      assert Values(row) == t[0];
      assert s == (pre + row) + rest;
      BlocksOfAssignments(pre + row, t[1..], i0 + 1, leng);
      assert ReverseRows(t) == [Reverse(t[0])] + ReverseRows(t[1..]);
    }
  }

  /**
   Round trip: whatever order the solver lists the coefficients of a table
   with at most ten rows of at most ten entries, sorting by name and cutting
   into blocks recovers row i as block i, reversed to highest degree first.
   */
  lemma ExtractRecoversTable(m: Model, t: seq<seq<real>>, leng: nat)
    requires 1 <= |t| <= 10 && leng <= 10
    requires Shaped(t, |t|, leng)
    requires ModelOf(m, t)
    ensures ExtractCoefficients(m, |t| - 1, leng) == ReverseRows(t)
  {
    var sorted, a := SortByName(m), Assignments(t);
    assert multiset(sorted) == multiset(a);
    AssignmentsStrictlySorted(t, 0, leng);
    SortedPermutationIsUnique(sorted, a);
    BlocksOfAssignments([], t, 0, leng);
    assert [] + a == a;
    assert ExtractCoefficients(m, |t| - 1, leng) == Blocks(sorted, 0, |t|, leng);
  }

  /** Python compares "coeff10,0" below "coeff2,0": two-digit row numbers sort before row 2. */
  lemma NameOrderBreaksAtTen(i: nat, j: nat, j': nat)
    requires 10 <= i < 20 && j < 10 && j' < 10
    ensures LexLess(CoeffName(i, j), CoeffName(2, j'))
  {
    assert NatToString(i) == ['1', DigitChar(i % 10)];
    var u := ['1', DigitChar(i % 10)] + "," + NatToString(j);
    var u' := ['2'] + "," + NatToString(j');
    assert CoeffName(i, j) == "coeff" + u && CoeffName(2, j') == "coeff" + u';
    LexLessCommonPrefix("coeff", u, u');
  }

  /**
   The ordering hazard: once a chain has eleven or more certificates the
   declaration order is no longer name-sorted, so sorting any model of the
   table moves some coefficient away from the block of its own certificate.
   */
  lemma RowMajorOrderLostBeyondTenRows(t: seq<seq<real>>, leng: nat)
    requires 11 <= |t| && 1 <= leng
    requires Shaped(t, |t|, leng)
    ensures !SortedByName(Assignments(t))
    ensures forall m :: ModelOf(m, t) ==> SortByName(m) != Assignments(t)
  {
    AssignmentsFromAt(t, 0, leng, 2, 0);
    AssignmentsFromAt(t, 0, leng, 10, 0);
    NameOrderBreaksAtTen(10, 0, 0);
    LexLessAsymmetric(CoeffName(10, 0), CoeffName(2, 0));
    LexLessIrreflexive(CoeffName(2, 0));
    assert 2 * leng < 10 * leng;
  }

  /**
   The pairs the round trip starts from carry the declared names: entry
   r*leng + j of the declaration order is the variable declared for
   coefficient j of B_r.
   */
  lemma DeclaredNamesInRowMajorOrder(t: seq<seq<real>>, leng: nat, r: nat, j: nat)
    requires 1 <= |t| && Shaped(t, |t|, leng)
    requires r < |t| && j < leng
    ensures r * leng + j < |Assignments(t)|
    ensures Assignments(t)[r * leng + j] == (CoefficientNames(|t| - 1, leng)[r][j], t[r][j])
  {
    AssignmentsFromAt(t, 0, leng, r, j);
  }

  /** The pairs of rows i0 .. cut after n rows: the first n rows, then the others. */
  lemma {:induction false} AssignmentsFromSplit(t: seq<seq<real>>, i0: nat, n: nat)
    requires n <= |t|
    ensures AssignmentsFrom(t, i0) == AssignmentsFrom(t[..n], i0) + AssignmentsFrom(t[n..], i0 + n)
    decreases n
  {
    if n == 0 {
      assert t[..0] == [] && t[0..] == t;
      assert AssignmentsFrom(t[..0], i0) == [];
    } else {
      AssignmentsFromSplit(t[1..], i0 + 1, n - 1);
      assert t[..n][0] == t[0];
      assert t[..n][1..] == t[1..][..n - 1];
      assert t[1..][n - 1..] == t[n..];
    }
  }

  /** The first block of the cut comes from the first `leng` pairs; the others are the cut of the rest. */
  lemma BlocksUnfold(sorted: Model, start: nat, count: nat, leng: nat)
    requires 0 < count
    ensures Blocks(sorted, start, count, leng)[0] == Reverse(Values(Slice(sorted, start, start + leng)))
    ensures Blocks(sorted, start, count, leng)[1..] == Blocks(sorted, start + leng, count - 1, leng)
  {
    var first, rest := Reverse(Values(Slice(sorted, start, start + leng))), Blocks(sorted, start + leng, count - 1, leng);
    assert Blocks(sorted, start, count, leng) == [first] + rest;
  }

  /** Within one row, names with one-digit columns sort in column order. */
  lemma ColumnOrder(i: nat, j: nat, j': nat)
    requires j < 10 && j' < 10
    ensures LexLess(CoeffName(i, j), CoeffName(i, j')) <==> j < j'
  {
    var p := "coeff" + NatToString(i) + ",";
    assert CoeffName(i, j) == p + [DigitChar(j)] && CoeffName(i, j') == p + [DigitChar(j')];
    LexLessCommonPrefix(p, [DigitChar(j)], [DigitChar(j')]);
    assert LexLess([DigitChar(j)], [DigitChar(j')]) <==> DigitChar(j) < DigitChar(j') by {
      assert [DigitChar(j)][1..] == [] && [DigitChar(j')][1..] == [];
      assert !LexLess([], []);
    }
    DigitCharMonotone(j, j');
  }

  /** Row 10 sorts after rows 0 and 1 and before rows 2 .. 9. */
  lemma RowTenNameOrder(i: nat, j: nat, j': nat)
    requires i < 10 && j < 10 && j' < 10
    ensures i < 2 ==> LexLess(CoeffName(i, j), CoeffName(10, j'))
    ensures 2 <= i ==> LexLess(CoeffName(10, j'), CoeffName(i, j))
  {
    assert NatToString(10) == ['1', '0'] by {
      assert NatToString(10) == NatToString(1) + [DigitChar(0)];
    }
    var u := [DigitChar(i), ',', DigitChar(j)];
    var v := ['1', '0', ',', DigitChar(j')];
    CoeffNameOneDigit(i, j);
    assert CoeffName(10, j') == "coeff" + v;
    LexLessCommonPrefix("coeff", u, v);
    LexLessCommonPrefix("coeff", v, u);
    DigitCharMonotone(1, i);
    assert DigitChar(1) == '1' && DigitChar(0) == '0';
    if i == 1 {
      assert u[1..] == [',', DigitChar(j)] && v[1..] == ['0', ',', DigitChar(j')];
      assert LexLess(u[1..], v[1..]);
    }
  }

  /** One row's pairs, in column order, are strictly name-sorted when the row has at most ten entries. */
  lemma RowStrictlySorted(i: nat, row: seq<real>)
    requires |row| <= 10
    ensures StrictlySortedByName(RowAssignments(i, row))
  {
    var r := RowAssignments(i, row);
    forall a, b | 0 <= a < b < |r|
      ensures LexLess(r[a].0, r[b].0)
    {
      ColumnOrder(i, a, b);
    }
  }

  lemma StrictlySortedConcat(a: Model, b: Model)
    requires StrictlySortedByName(a) && StrictlySortedByName(b)
    requires forall p, q :: 0 <= p < |a| && 0 <= q < |b| ==> LexLess(a[p].0, b[q].0)
    ensures StrictlySortedByName(a + b)
  {
    var s := a + b;
    forall x, y | 0 <= x < y < |s|
      ensures LexLess(s[x].0, s[y].0)
    {
      if y < |a| {
        assert s[x] == a[x] && s[y] == a[y];
      } else if x < |a| {
        assert s[x] == a[x] && s[y] == b[y - |a|];
      } else {
        assert s[x] == b[x - |a|] && s[y] == b[y - |a|];
      }
    }
  }

  /** The name order of the pairs of an eleven-row table: rows 0 and 1, then row 10, then rows 2 .. 9. */
  function ElevenRowsNameOrder(t: seq<seq<real>>): Model
    requires |t| == 11
  {
    AssignmentsFrom(t[..2], 0) + RowAssignments(10, t[10]) + AssignmentsFrom(t[2..10], 2)
  }

  lemma ElevenRowsNameOrderIsPermutation(t: seq<seq<real>>)
    requires |t| == 11
    ensures multiset(ElevenRowsNameOrder(t)) == multiset(Assignments(t))
  {
    var head, row10, mid := AssignmentsFrom(t[..2], 0), RowAssignments(10, t[10]), AssignmentsFrom(t[2..10], 2);
    AssignmentsFromSplit(t, 0, 2);
    AssignmentsFromSplit(t[2..], 2, 8);
    assert t[2..][..8] == t[2..10];
    assert t[2..][8..] == [t[10]];
    assert [t[10]][1..] == [];
    assert AssignmentsFrom([t[10]], 10) == row10 + AssignmentsFrom([t[10]][1..], 11);
    assert Assignments(t) == head + (mid + row10);
  }

  lemma {:induction false} ElevenRowsNameOrderIsSorted(t: seq<seq<real>>, leng: nat)
    requires leng <= 10 && Shaped(t, 11, leng)
    ensures StrictlySortedByName(ElevenRowsNameOrder(t))
  {
    var head, row10, mid := AssignmentsFrom(t[..2], 0), RowAssignments(10, t[10]), AssignmentsFrom(t[2..10], 2);
    AssignmentsFromNames(t[..2], 0, leng);
    assert StrictlySortedByName(head + row10) by {
      AssignmentsStrictlySorted(t[..2], 0, leng);
      RowStrictlySorted(10, t[10]);
      forall p, q | 0 <= p < |head| && 0 <= q < |row10|
        ensures LexLess(head[p].0, row10[q].0)
      {
        var i: nat, j: nat :| 0 <= i < 2 && j < leng && head[p].0 == CoeffName(i, j);
        RowTenNameOrder(i, j, q);
      }
      StrictlySortedConcat(head, row10);
    }
    AssignmentsStrictlySorted(t[2..10], 2, leng);
    AssignmentsFromNames(t[2..10], 2, leng);
    AssignmentsFromLength(t[..2], 0, leng);
    forall p, q | 0 <= p < |head + row10| && 0 <= q < |mid|
      ensures LexLess((head + row10)[p].0, mid[q].0)
    {
      var i': nat, j': nat :| 2 <= i' < 10 && j' < leng && mid[q].0 == CoeffName(i', j');
      if p < |head| {
        var i: nat, j: nat :| 0 <= i < 2 && j < leng && head[p].0 == CoeffName(i, j);
        assert (head + row10)[p] == head[p];
        CoeffNameOrder(i, j, i', j');
      } else {
        assert (head + row10)[p] == row10[p - |head|];
        RowTenNameOrder(i', j', p - |head|);
      }
    }
    StrictlySortedConcat(head + row10, mid);
  }

  /** Sorting any model of an eleven-row table by name gives rows 0, 1, 10, 2, ..., 9. */
  lemma SortElevenRows(m: Model, t: seq<seq<real>>, leng: nat)
    requires leng <= 10 && Shaped(t, 11, leng)
    requires ModelOf(m, t)
    ensures SortByName(m) == ElevenRowsNameOrder(t)
  {
    ElevenRowsNameOrderIsPermutation(t);
    ElevenRowsNameOrderIsSorted(t, leng);
    SortedPermutationIsUnique(SortByName(m), ElevenRowsNameOrder(t));
  }

  /** The third run of `leng` pairs in that order is row 10. */
  lemma ElevenRowsThirdRun(t: seq<seq<real>>, leng: nat)
    requires Shaped(t, 11, leng)
    ensures leng + leng + leng <= |ElevenRowsNameOrder(t)|
    ensures ElevenRowsNameOrder(t)[leng + leng..leng + leng + leng] == RowAssignments(10, t[10])
  {
    AssignmentsFromLength(t[..2], 0, leng);
  }

  /** Block 2 of the cut comes from the third run of `leng` pairs. */
  lemma ThirdBlock(sorted: Model, count: nat, leng: nat)
    requires 3 <= count
    ensures Blocks(sorted, 0, count, leng)[2] == Reverse(Values(Slice(sorted, leng + leng, leng + leng + leng)))
  {
    var b0, b1, b2 := Blocks(sorted, 0, count, leng), Blocks(sorted, leng, count - 1, leng), Blocks(sorted, leng + leng, count - 2, leng);
    BlocksUnfold(sorted, 0, count, leng);
    BlocksUnfold(sorted, leng, count - 1, leng);
    BlocksUnfold(sorted, leng + leng, count - 2, leng);
    assert b0[1..] == b1 && b1[1..] == b2;
    assert b0[2] == b2[0];
  }

  /**
   The hazard's effect on the coefficients: with eleven certificates the
   sorted model runs through rows 0, 1, 10, 2, ..., 9, so block 2, which
   the program evaluates and plots as B_2, holds the coefficients of B_10.
   */
  lemma ElevenRowsMisplaceBlockTwo(m: Model, t: seq<seq<real>>, leng: nat)
    requires leng <= 10 && Shaped(t, 11, leng)
    requires ModelOf(m, t)
    ensures ExtractCoefficients(m, 10, leng)[2] == Reverse(t[10])
  {
    var sorted := SortByName(m);
    var row10 := RowAssignments(10, t[10]);
    assert ExtractCoefficients(m, 10, leng) == Blocks(sorted, 0, 11, leng);
    ThirdBlock(sorted, 11, leng);
    assert Slice(sorted, leng + leng, leng + leng + leng) == row10 by {
      SortElevenRows(m, t, leng);
      ElevenRowsThirdRun(t, leng);
    }
    assert Values(row10) == t[10];
  }
}
