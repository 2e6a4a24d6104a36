/**
  Diagonal dominance, diagonal repairs, and the least diagonal shift that makes
  a symmetric integer matrix positive definite.
 */
module StrictShifts {
  import opened Options
  import opened QuadraticForms
  import opened Bareiss

  function Abs(v: int): nat {
    if v < 0 then -v else v
  }

  /** sum of |M[i][c]| over c >= j, c != i */
  function OffDiagonal(M: Matrix, i: nat, j: nat): nat
    requires Square(M) && i < |M|
    decreases |M| - j
  {
    if j >= |M| then 0 else (if j == i then 0 else Abs(M[i][j])) + OffDiagonal(M, i, j + 1)
  }

  function Margin(M: Matrix, i: nat): int
    requires Square(M) && i < |M|
  {
    M[i][i] - OffDiagonal(M, i, 0)
  }

  // ----- diagonal repairs -----

  /** R is M with d[i] added to entry (i, i). */
  ghost predicate Repairs(M: Matrix, R: Matrix, d: seq<int>) {
    && Square(M) && Square(R) && |M| == |R| == |d|
    && forall i, j :: 0 <= i < |M| && 0 <= j < |M| ==> R[i][j] == if i == j then M[i][j] + d[i] else M[i][j]
  }

  /** sum of d[i] x[i]^2 over i >= k */
  ghost function WeightedSquares(d: seq<int>, x: seq<int>, k: nat): int
    requires |d| == |x|
    decreases |d| - k
  {
    if k >= |d| then 0 else d[k] * (x[k] * x[k]) + WeightedSquares(d, x, k + 1)
  }

  lemma {:induction false} RepairRowDot(M: Matrix, R: Matrix, d: seq<int>, x: seq<int>, i: nat, j: nat)
    requires Repairs(M, R, d) && |x| == |M| && i < |M|
    ensures RowDot(R, x, i, j) == RowDot(M, x, i, j) + if j <= i then d[i] * x[i] else 0
    decreases |M| - j
  {
    if j < |M| {
      RepairRowDot(M, R, d, x, i, j + 1);
      if i == j {
        assert (M[i][j] + d[i]) * x[j] == M[i][j] * x[j] + d[i] * x[j];
      }
    }
  }

  lemma {:induction false} RepairRows(M: Matrix, R: Matrix, d: seq<int>, x: seq<int>, i: nat, k: nat)
    requires Repairs(M, R, d) && |x| == |M| && k <= i
    ensures Rows(R, x, i, k) == Rows(M, x, i, k) + WeightedSquares(d, x, i)
    decreases |M| - i
  {
    if i < |M| {
      RepairRowDot(M, R, d, x, i, k);
      RepairRows(M, R, d, x, i + 1, k);
      var a, r, b := x[i], RowDot(M, x, i, k), d[i];
      assert a * (r + b * a) == a * r + b * (a * a);
    }
  }

  lemma RepairForm(M: Matrix, R: Matrix, d: seq<int>, x: seq<int>, k: nat)
    requires Repairs(M, R, d) && |x| == |M|
    ensures Form(R, x, k) == Form(M, x, k) + WeightedSquares(d, x, k)
  {
    RepairRows(M, R, d, x, k, k);
  }

  lemma {:induction false} WeightedSquaresMonotone(d: seq<int>, e: seq<int>, x: seq<int>, k: nat)
    requires |d| == |e| == |x|
    requires forall i :: k <= i < |d| ==> d[i] <= e[i]
    ensures WeightedSquares(d, x, k) <= WeightedSquares(e, x, k)
    decreases |d| - k
  {
    if k < |d| {
      WeightedSquaresMonotone(d, e, x, k + 1);
      Monotone(d[k], e[k], x[k] * x[k]);
    }
  }

  lemma Monotone(a: int, b: int, c: int)
    requires a <= b && c >= 0
    ensures a * c <= b * c
  {
  }

  function Constant(n: nat, value: int): (d: seq<int>)
    ensures |d| == n && forall i :: 0 <= i < n ==> d[i] == value
  {
    seq(n, _ => value)
  }

  lemma ShiftedForm(M: Matrix, shift: int, x: seq<int>)
    requires Square(M) && |x| == |M|
    ensures Form(Shifted(M, shift), x, 0) == Form(M, x, 0) + WeightedSquares(Constant(|M|, shift), x, 0)
  {
    RepairForm(M, Shifted(M, shift), Constant(|M|, shift), x, 0);
  }

  /** A larger shift keeps a matrix positive definite. */
  lemma ShiftMonotone(M: Matrix, s: int, t: int)
    requires Square(M) && s <= t && PositiveDefinite(Shifted(M, s))
    ensures PositiveDefinite(Shifted(M, t))
  {
    forall x: seq<int> | |x| == |M| && NonzeroFrom(x, 0) ensures Form(Shifted(M, t), x, 0) > 0 {
      ShiftedForm(M, s, x);
      ShiftedForm(M, t, x);
      WeightedSquaresMonotone(Constant(|M|, s), Constant(|M|, t), x, 0);
    }
  }

  // ----- diagonal dominance -----

  /** M[i][i] minus the absolute off-diagonal entries of row i at columns >= k */
  ghost function PartialMargins(M: Matrix, k: nat): (d: seq<int>)
    requires Square(M)
    ensures |d| == |M| && forall i :: 0 <= i < |M| ==> d[i] == M[i][i] - OffDiagonal(M, i, k)
  {
    seq(|M|, i requires 0 <= i < |M| => M[i][i] - OffDiagonal(M, i, k))
  }

  lemma TwiceProduct(m: int, a: int, b: int)
    ensures 2 * (a * (m * b)) >= -(Abs(m) * (a * a)) - Abs(m) * (b * b)
  {
    var p, q := a - b, a + b;
    assert p * p == a * a - 2 * (a * b) + b * b >= 0;
    assert q * q == a * a + 2 * (a * b) + b * b >= 0;
    var s := a * a + b * b;
    assert a * (m * b) == m * (a * b);
    if m >= 0 {
      Monotone(-s, 2 * (a * b), m);
      assert -s * m == -(m * (a * a)) - m * (b * b);
      assert 2 * (a * b) * m == 2 * (m * (a * b));
    } else {
      Monotone(2 * (a * b), s, -m);
      assert s * -m == -m * (a * a) + -m * (b * b);
      assert 2 * (a * b) * -m == -(2 * (m * (a * b)));
    }
  }

  lemma DominanceArithmetic(a: int, b: int, m: int, r: int, d: int, o: int, V: int, W: int)
    requires 2 * (a * r) + W >= V - o * (a * a)
    ensures 2 * (a * (m * b + r)) + ((d + Abs(m)) * (b * b) + W) >= (d * (b * b) + V) - (Abs(m) + o) * (a * a)
  {
    TwiceProduct(m, a, b);
    assert a * (m * b + r) == a * (m * b) + a * r;
    assert (d + Abs(m)) * (b * b) == d * (b * b) + Abs(m) * (b * b);
    assert (Abs(m) + o) * (a * a) == Abs(m) * (a * a) + o * (a * a);
  }

  lemma {:induction false} DominanceRow(M: Matrix, x: seq<int>, k: nat, i: nat)
    requires Symmetric(M) && |x| == |M| && k < i && k < |M|
    ensures 2 * (x[k] * RowDot(M, x, k, i)) + WeightedSquares(PartialMargins(M, k + 1), x, i)
            >= WeightedSquares(PartialMargins(M, k), x, i) - OffDiagonal(M, k, i) * (x[k] * x[k])
    decreases |M| - i
  {
    var D, E := PartialMargins(M, k), PartialMargins(M, k + 1);
    if i < |M| {
      DominanceRow(M, x, k, i + 1);
      assert M[i][k] == M[k][i];
      assert E[i] == D[i] + Abs(M[k][i]);
      DominanceArithmetic(x[k], x[i], M[k][i], RowDot(M, x, k, i + 1), D[i], OffDiagonal(M, k, i + 1),
                          WeightedSquares(D, x, i + 1), WeightedSquares(E, x, i + 1));
    } else {
      assert x[k] * 0 == 0;
    }
  }

  /** The form dominates the sum of margins times squares. */
  lemma {:induction false} Dominance(M: Matrix, x: seq<int>, k: nat)
    requires Symmetric(M) && |x| == |M| && k <= |M|
    ensures Form(M, x, k) >= WeightedSquares(PartialMargins(M, k), x, k)
    decreases |M| - k
  {
    if k < |M| {
      Dominance(M, x, k + 1);
      FormStep(M, x, k);
      DominanceRow(M, x, k, k + 1);
      DominanceTotal(x[k], M[k][k], RowDot(M, x, k, k + 1), OffDiagonal(M, k, k + 1), Form(M, x, k + 1),
                     WeightedSquares(PartialMargins(M, k), x, k + 1),
                     WeightedSquares(PartialMargins(M, k + 1), x, k + 1));
    }
  }

  lemma DominanceTotal(a: int, p: int, r: int, o: int, F: int, V: int, W: int)
    requires 2 * (a * r) + W >= V - o * (a * a) && F >= W
    ensures p * a * a + 2 * a * r + F >= (p - o) * (a * a) + V
  {
    assert 2 * a * r == 2 * (a * r);
    assert p * a * a == p * (a * a);
    assert (p - o) * (a * a) == p * (a * a) - o * (a * a);
  }

  lemma {:induction false} PositiveWeights(d: seq<int>, x: seq<int>, k: nat)
    requires |d| == |x| && forall i :: k <= i < |d| ==> d[i] > 0
    ensures WeightedSquares(d, x, k) >= 0
    ensures NonzeroFrom(x, k) ==> WeightedSquares(d, x, k) > 0
    decreases |d| - k
  {
    if k < |d| {
      PositiveWeights(d, x, k + 1);
      assert x[k] * x[k] >= 0 && (x[k] != 0 ==> x[k] * x[k] > 0);
      Monotone(1, d[k], x[k] * x[k]);
    }
  }

  /** A shift above every missing margin makes the matrix positive definite. */
  lemma DominantShift(M: Matrix, shift: int)
    requires Symmetric(M) && forall i :: 0 <= i < |M| ==> Margin(M, i) + shift > 0
    ensures PositiveDefinite(Shifted(M, shift))
  {
    forall x: seq<int> | |x| == |M| && NonzeroFrom(x, 0) ensures Form(Shifted(M, shift), x, 0) > 0 {
      ShiftedForm(M, shift, x);
      Dominance(M, x, 0);
      var d, e := PartialMargins(M, 0), Constant(|M|, shift);
      var f := seq(|M|, i requires 0 <= i < |M| => d[i] + e[i]);
      AddWeights(d, e, f, x, 0);
      forall i | 0 <= i < |M| ensures f[i] > 0 {
        assert Margin(M, i) + shift > 0;
      }
      PositiveWeights(f, x, 0);
    }
  }

  lemma {:induction false} AddWeights(d: seq<int>, e: seq<int>, f: seq<int>, x: seq<int>, k: nat)
    requires |d| == |e| == |f| == |x| && forall i :: 0 <= i < |d| ==> f[i] == d[i] + e[i]
    ensures WeightedSquares(f, x, k) == WeightedSquares(d, x, k) + WeightedSquares(e, x, k)
    decreases |d| - k
  {
    if k < |d| {
      AddWeights(d, e, f, x, k + 1);
      assert (d[k] + e[k]) * (x[k] * x[k]) == d[k] * (x[k] * x[k]) + e[k] * (x[k] * x[k]);
    }
  }

  // ----- the search for the least strict shift -----

  method RowMargin(M: Matrix, i: nat) returns (margin: int)
    requires Square(M) && i < |M|
    ensures margin == Margin(M, i)
  {
    margin := M[i][i];
    for j := 0 to |M|
      invariant margin == M[i][i] - OffDiagonal(M, i, 0) + OffDiagonal(M, i, j)
    {
      if i != j {
        margin := margin - Abs(M[i][j]);
      }
    }
  }

  /** The least shift that makes the form positive; every non-empty symmetric matrix has one. */
  method MinimumStrictShift(M: Matrix) returns (r: Option<int>)
    requires Square(M)
    ensures r.Some? ==> M != [] && r.value >= 0 && PositivityTest(M, r.value) == Some(true)
    ensures Symmetric(M) && r.Some? ==> PositiveDefinite(Shifted(M, r.value))
    ensures Symmetric(M) && r.Some? ==>
              forall s :: 0 <= s < r.value ==> !PositiveDefinite(Shifted(M, s))
    ensures Symmetric(M) ==> (r.None? <==> M == [])
  {
    if M == [] {
      return None;
    }
    var minimum := 0;
    for i := 0 to |M|
      invariant forall a :: 0 <= a < i ==> minimum <= Margin(M, a)
    {
      var margin := RowMargin(M, i);
      if i == 0 || margin < minimum {
        minimum := margin;
      }
    }
    var high := if minimum < 0 then -minimum + 1 else 1;
    if Symmetric(M) {
      TestDecidesDefiniteness(M, 0);
      TestDecidesDefiniteness(M, high);
      DominantShift(M, high);
    }
    var zeroOk := StrictlyPositiveDefinite(M, 0);
    if zeroOk.None? {
      return None;
    }
    if zeroOk.value {
      return Some(0);
    }
    var highOk := StrictlyPositiveDefinite(M, high);
    if highOk.None? || !highOk.value {
      return None;
    }
    var low := 0;
    while low + 1 < high
      invariant 0 <= low < high
      invariant PositivityTest(M, low) == Some(false)
      invariant PositivityTest(M, high) == Some(true)
    {
      var middle := (low + high) / 2;
      if Symmetric(M) {
        TestDecidesDefiniteness(M, middle);
      }
      var middleOk := StrictlyPositiveDefinite(M, middle);
      if middleOk.None? {
        return None;
      }
      if middleOk.value {
        high := middle;
      } else {
        low := middle;
      }
    }
    if Symmetric(M) {
      TestDecidesDefiniteness(M, low);
      TestDecidesDefiniteness(M, high);
      forall s | 0 <= s < high ensures !PositiveDefinite(Shifted(M, s)) {
        if PositiveDefinite(Shifted(M, s)) {
          ShiftMonotone(M, s, low);
        }
      }
    }
    return Some(high);
  }
}
