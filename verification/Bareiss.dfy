/**
  Fraction-free symmetric elimination as a decision procedure for positive
  definiteness, and the search for the least diagonal shift that makes a matrix
  positive definite.
 */
module Bareiss {
  import opened Options
  import opened QuadraticForms
  import opened Determinants

  // ----- the elimination as a function -----

  /** The numerator of entry (i, j) of the next matrix, read off the upper triangle. */
  function Numerator(M: Matrix, k: nat, i: nat, j: nat): int
    requires Square(M) && k < |M| && i < |M| && j < |M|
  {
    if i <= j then M[k][k] * M[i][j] - M[i][k] * M[k][j] else M[k][k] * M[j][i] - M[j][k] * M[k][i]
  }

  predicate Exact(M: Matrix, k: nat, previous: int)
    requires Square(M) && k < |M| && previous > 0
  {
    forall i, j :: k < i < |M| && i <= j < |M| ==> Numerator(M, k, i, j) % previous == 0
  }

  function Eliminated(M: Matrix, k: nat, previous: int): (R: Matrix)
    requires Square(M) && k < |M| && previous > 0
    ensures Square(R) && |R| == |M|
  {
    seq(|M|, i requires 0 <= i < |M| => seq(|M|, j requires 0 <= j < |M| =>
      if i > k && j > k then Numerator(M, k, i, j) / previous else M[i][j]))
  }

  function Decide(M: Matrix, k: nat, previous: int): Option<bool>
    requires Square(M) && k <= |M| && previous > 0
    decreases |M| - k
  {
    if k == |M| then Some(true)
    else if M[k][k] <= 0 then Some(false)
    else if !Exact(M, k, previous) then None
    else Decide(Eliminated(M, k, previous), k + 1, M[k][k])
  }

  function Shifted(M: Matrix, shift: int): (R: Matrix)
    requires Square(M)
    ensures Square(R) && |R| == |M|
  {
    seq(|M|, i requires 0 <= i < |M| => seq(|M|, j requires 0 <= j < |M| =>
      if i == j then M[i][j] + shift else M[i][j]))
  }

  /** What the test answers; None means that some division was not exact. */
  function PositivityTest(M: Matrix, shift: int): Option<bool> {
    if shift < 0 || M == [] then Some(false)
    else if !Square(M) then None
    else Decide(Shifted(M, shift), 0, 1)
  }

  // ----- one elimination step in terms of the form -----

  ghost predicate Step(M: Matrix, R: Matrix, k: nat, previous: int) {
    && Square(M) && Square(R) && |M| == |R| && k < |M|
    && forall i, j :: k < i < |M| && k < j < |M| ==> previous * R[i][j] == M[k][k] * M[i][j] - M[i][k] * M[k][j]
  }

  lemma EliminatedIsStep(M: Matrix, k: nat, previous: int)
    requires Symmetric(M) && k < |M| && previous > 0 && Exact(M, k, previous)
    ensures Step(M, Eliminated(M, k, previous), k, previous) && Symmetric(Eliminated(M, k, previous))
  {
    var R := Eliminated(M, k, previous);
    forall i, j | k < i < |M| && k < j < |M|
      ensures previous * R[i][j] == M[k][k] * M[i][j] - M[i][k] * M[k][j]
    {
      var n := Numerator(M, k, i, j);
      assert n == M[k][k] * M[i][j] - M[i][k] * M[k][j] by {
        assert M[i][j] == M[j][i] && M[i][k] == M[k][i] && M[k][j] == M[j][k];
      }
      assert n == Numerator(M, k, j, i);
      assert n % previous == 0;
      assert n == previous * (n / previous) + n % previous;
    }
    forall i, j | 0 <= i < |M| && 0 <= j < |M| ensures R[i][j] == R[j][i] {
      assert M[i][j] == M[j][i];
    }
  }

  lemma {:induction false} StepRowDot(M: Matrix, R: Matrix, x: seq<int>, k: nat, previous: int, i: nat, j: nat)
    requires Step(M, R, k, previous) && |x| == |M| && k < i < |M| && k < j
    ensures previous * RowDot(R, x, i, j) == M[k][k] * RowDot(M, x, i, j) - M[i][k] * RowDot(M, x, k, j)
    decreases |M| - j
  {
    if j < |M| {
      StepRowDot(M, R, x, k, previous, i, j + 1);
      Distribute(previous, R[i][j], x[j], M[k][k], M[i][j], M[i][k], M[k][j],
                 RowDot(R, x, i, j + 1), RowDot(M, x, i, j + 1), RowDot(M, x, k, j + 1));
    }
  }

  lemma Distribute(q: int, r: int, x: int, p: int, m: int, a: int, b: int, R: int, S: int, T: int)
    requires q * r == p * m - a * b && q * R == p * S - a * T
    ensures q * (r * x + R) == p * (m * x + S) - a * (b * x + T)
  {
    calc {
      q * (r * x + R);
      (q * r) * x + q * R;
      (p * m - a * b) * x + p * S - a * T;
      p * (m * x + S) - a * (b * x + T);
    }
  }

  lemma {:induction false} StepRows(M: Matrix, R: Matrix, x: seq<int>, k: nat, previous: int, i: nat)
    requires Symmetric(M) && Step(M, R, k, previous) && |x| == |M| && k < i
    ensures previous * Rows(R, x, i, k + 1) ==
            M[k][k] * Rows(M, x, i, k + 1) - RowDot(M, x, k, i) * RowDot(M, x, k, k + 1)
    decreases |M| - i
  {
    if i < |M| {
      StepRows(M, R, x, k, previous, i + 1);
      StepRowDot(M, R, x, k, previous, i, k + 1);
      assert M[i][k] == M[k][i];
      Distribute2(previous, RowDot(R, x, i, k + 1), x[i], M[k][k], RowDot(M, x, i, k + 1), M[k][i],
                  RowDot(M, x, k, k + 1), Rows(R, x, i + 1, k + 1), Rows(M, x, i + 1, k + 1),
                  RowDot(M, x, k, i + 1));
    }
  }

  lemma Distribute2(q: int, r: int, x: int, p: int, m: int, a: int, d: int, R: int, S: int, T: int)
    requires q * r == p * m - a * d && q * R == p * S - T * d
    ensures q * (x * r + R) == p * (x * m + S) - (a * x + T) * d
  {
    calc {
      q * (x * r + R);
      x * (q * r) + q * R;
      x * (p * m - a * d) + p * S - T * d;
      p * (x * m + S) - (a * x + T) * d;
    }
  }

  /** p_k Q_k(x) = (row_k . x)^2 + previous Q_{k+1}(x) */
  lemma PivotIdentity(M: Matrix, R: Matrix, x: seq<int>, k: nat, previous: int)
    requires Symmetric(M) && Step(M, R, k, previous) && |x| == |M|
    ensures M[k][k] * Form(M, x, k) ==
            RowDot(M, x, k, k) * RowDot(M, x, k, k) + previous * Form(R, x, k + 1)
  {
    FormStep(M, x, k);
    StepRows(M, R, x, k, previous, k + 1);
    var p, b, r, s := M[k][k], x[k], RowDot(M, x, k, k + 1), Form(M, x, k + 1);
    assert RowDot(M, x, k, k) == p * b + r;
    Square2(p, b, r, s);
  }

  lemma Square2(p: int, b: int, r: int, s: int)
    ensures p * (p * b * b + 2 * b * r + s) == (p * b + r) * (p * b + r) + (p * s - r * r)
  {
    calc {
      (p * b + r) * (p * b + r) + (p * s - r * r);
      (p * b) * (p * b) + 2 * ((p * b) * r) + r * r + p * s - r * r;
      p * (p * b * b) + p * (2 * b * r) + p * s;
    }
  }

  // ----- a positive pivot preserves definiteness in both directions -----

  lemma PivotForward(M: Matrix, R: Matrix, k: nat, previous: int)
    requires Symmetric(M) && Step(M, R, k, previous) && previous > 0 && M[k][k] > 0
    requires PositiveFrom(R, k + 1)
    ensures PositiveFrom(M, k)
  {
    forall x: seq<int> | |x| == |M| && NonzeroFrom(x, k) ensures Form(M, x, k) > 0 {
      PivotIdentity(M, R, x, k, previous);
      var d, q := RowDot(M, x, k, k), Form(R, x, k + 1);
      assert d * d >= 0;
      if NonzeroFrom(x, k + 1) {
        assert q > 0;
        assert previous * q > 0;
      } else {
        RowsZero(R, x, k + 1, k + 1);
        RowDotZero(M, x, k, k + 1);
        assert x[k] != 0;
        assert d == M[k][k] * x[k] != 0;
        assert d * d > 0;
        assert previous * q == 0;
      }
      PositiveFactor(M[k][k], Form(M, x, k));
    }
  }

  lemma PositiveFactor(p: int, f: int)
    requires p > 0
    ensures p * f > 0 <==> f > 0
  {
    if f <= 0 {
      assert p * f <= 0;
    } else {
      assert p * f > 0;
    }
  }

  /** The vector that makes row k vanish and scales the rest by the pivot. */
  ghost function Lift(M: Matrix, y: seq<int>, k: nat): (x: seq<int>)
    requires Square(M) && |y| == |M| && k < |M|
    ensures |x| == |y|
  {
    seq(|y|, c requires 0 <= c < |y| => if c == k then -RowDot(M, y, k, k + 1) else M[k][k] * y[c])
  }

  lemma PositiveThrough(p: int, previous: int, q: int, f: int)
    requires p > 0 && previous > 0 && p * f == previous * (p * p * q) && f > 0
    ensures q > 0
  {
    PositiveFactor(p, f);
    PositiveFactor(previous, p * p * q);
    PositiveFactor(p, p * q);
    PositiveFactor(p, q);
    assert p * p * q == p * (p * q);
  }

  lemma FormScale(M: Matrix, x: seq<int>, y: seq<int>, p: int, k: nat)
    requires Square(M) && |x| == |y| == |M|
    requires forall c :: k <= c < |M| ==> x[c] == p * y[c]
    ensures Form(M, x, k) == p * p * Form(M, y, k)
  {
    RowsScale(M, x, y, p, k, k);
  }

  /** The lifted vector is orthogonal to the pivot row. */
  lemma LiftVanishes(M: Matrix, y: seq<int>, k: nat)
    requires Square(M) && |y| == |M| && k < |M|
    ensures RowDot(M, Lift(M, y, k), k, k) == 0
  {
    var x, p := Lift(M, y, k), M[k][k];
    RowDotScale(M, x, y, p, k, k + 1);
    Cancels(p, x[k], RowDot(M, y, k, k + 1));
  }

  lemma Cancels(p: int, x: int, r: int)
    requires x == -r
    ensures p * x + p * r == 0
  {
  }

  lemma WithoutSquare(f: int, d: int, previous: int, g: int)
    requires d == 0 && f == d * d + previous * g
    ensures f == previous * g
  {
  }

  /** The lifted vector turns a value of the remaining form into one of the whole form. */
  lemma LiftedForm(M: Matrix, R: Matrix, k: nat, previous: int, y: seq<int>)
    requires Symmetric(M) && Step(M, R, k, previous) && |y| == |M|
    ensures M[k][k] * Form(M, Lift(M, y, k), k) == previous * (M[k][k] * M[k][k] * Form(R, y, k + 1))
  {
    var x, p := Lift(M, y, k), M[k][k];
    assert forall c :: k + 1 <= c < |R| ==> x[c] == p * y[c];
    hide Form, RowDot, Lift;
    LiftVanishes(M, y, k);
    FormScale(R, x, y, p, k + 1);
    PivotIdentity(M, R, x, k, previous);
    WithoutSquare(p * Form(M, x, k), RowDot(M, x, k, k), previous, Form(R, x, k + 1));
  }

  lemma PivotBackward(M: Matrix, R: Matrix, k: nat, previous: int)
    requires Symmetric(M) && Step(M, R, k, previous) && previous > 0 && M[k][k] > 0
    requires PositiveFrom(M, k)
    ensures PositiveFrom(R, k + 1)
  {
    hide Symmetric, Form;
    forall y: seq<int> | |y| == |R| && NonzeroFrom(y, k + 1) ensures Form(R, y, k + 1) > 0 {
      var x, p := Lift(M, y, k), M[k][k];
      var i :| k + 1 <= i < |y| && y[i] != 0;
      assert x[i] == p * y[i] != 0;
      assert NonzeroFrom(x, k);
      LiftedForm(M, R, k, previous, y);
      PositiveThrough(p, previous, Form(R, y, k + 1), Form(M, x, k));
    }
  }

  lemma BadPivot(M: Matrix, k: nat)
    requires Symmetric(M) && k < |M| && M[k][k] <= 0
    ensures !PositiveFrom(M, k)
  {
    var x := seq(|M|, c => if c == k then 1 else 0);
    FormStep(M, x, k);
    RowDotZero(M, x, k, k + 1);
    RowsZero(M, x, k + 1, k + 1);
    assert x[k] != 0;
  }

  // ----- every division is exact -----

  ghost predicate IsProduct(d: int, p: int, x: int) {
    d == p * x
  }

  ghost predicate HasFactor(d: int, p: int) {
    exists x :: IsProduct(d, p, x)
  }

  /** All minors of the rows and columns from k on have the power of the previous pivot below their size as a factor. */
  ghost predicate Divisible(M: Matrix, k: nat, previous: int)
    requires Square(M)
  {
    forall I: seq<nat>, J: seq<nat> :: Indices(I, k, |M|) && Indices(J, k, |M|) && |I| == |J| > 0 ==>
      HasFactor(Det(Minor(M, I, J)), Pow(previous, |I| - 1))
  }

  lemma {:induction false} PowOne(e: nat)
    ensures Pow(1, e) == 1
  {
    if e > 0 {
      PowOne(e - 1);
    }
  }

  lemma AllDivisible(M: Matrix)
    requires Square(M)
    ensures Divisible(M, 0, 1)
  {
    hide Det;
    forall I: seq<nat>, J: seq<nat> | Indices(I, 0, |M|) && Indices(J, 0, |M|) && |I| == |J| > 0
      ensures HasFactor(Det(Minor(M, I, J)), Pow(1, |I| - 1))
    {
      PowOne(|I| - 1);
      assert IsProduct(Det(Minor(M, I, J)), 1, Det(Minor(M, I, J)));
    }
  }

  lemma ProductDivides(q: int, x: int)
    requires q > 0
    ensures (q * x) % q == 0
  {
    var d, r := (q * x) / q, (q * x) % q;
    assert r == q * (x - d);
    if x != d {
      LargeProduct(q, x - d);
      assert false;
    }
  }

  lemma LargeProduct(q: int, e: int)
    requires q > 0 && e != 0
    ensures q * e >= q || q * e <= -q
  {
  }

  /** The two-rowed minors are the numerators. */
  lemma DivisibleIsExact(M: Matrix, k: nat, previous: int)
    requires Square(M) && k < |M| && previous > 0 && Divisible(M, k, previous)
    ensures Exact(M, k, previous)
  {
    hide Det;
    forall i, j | k < i < |M| && i <= j < |M| ensures Numerator(M, k, i, j) % previous == 0 {
      var I, J := [k, i], [k, j];
      assert Indices(I, k, |M|) && Indices(J, k, |M|) && |I| == |J| > 0;
      DetOfTwo(Minor(M, I, J));
      assert Pow(previous, 1) == previous * Pow(previous, 0) == previous;
      assert HasFactor(Numerator(M, k, i, j), previous);
      var x :| IsProduct(Numerator(M, k, i, j), previous, x);
      ProductDivides(previous, x);
    }
  }

  /** One step keeps the minors divisible, now by powers of its pivot. */
  lemma StepKeepsDivisible(M: Matrix, R: Matrix, k: nat, previous: int)
    requires Step(M, R, k, previous) && M[k][k] > 0 && previous > 0 && Divisible(M, k, previous)
    ensures Divisible(R, k + 1, M[k][k])
  {
    hide HasFactor;
    forall I: seq<nat>, J: seq<nat> | Indices(I, k + 1, |R|) && Indices(J, k + 1, |R|) && |I| == |J| > 0
      ensures HasFactor(Det(Minor(R, I, J)), Pow(M[k][k], |I| - 1))
    {
      assert Indices([k] + I, k, |M|) && Indices([k] + J, k, |M|) && |[k] + I| == |[k] + J| > 0;
      StepKeepsMinor(M, R, k, previous, I, J);
    }
  }

  lemma StepKeepsMinor(M: Matrix, R: Matrix, k: nat, previous: int, I: seq<nat>, J: seq<nat>)
    requires Step(M, R, k, previous) && M[k][k] > 0 && previous > 0
    requires Indices(I, k + 1, |M|) && Indices(J, k + 1, |M|) && |I| == |J| > 0
    requires Indices([k] + I, 0, |M|) && Indices([k] + J, 0, |M|)
    requires HasFactor(Det(Minor(M, [k] + I, [k] + J)), Pow(previous, |I|))
    ensures HasFactor(Det(Minor(R, I, J)), Pow(M[k][k], |I| - 1))
  {
    hide Condenses, Det, Minor, Scales;
    var p, r, m, b := M[k][k], |I|, Minor(M, [k] + I, [k] + J), Minor(R, I, J);
    var x :| IsProduct(Det(m), Pow(previous, r), x);
    var c := seq(r, i requires 0 <= i < r => seq(r, j requires 0 <= j < r => previous * b[i][j]));
    MinorCondenses(M, R, k, previous, I, J, c);
    Condensation(m, c);
    ScaledDet(previous, b, c);
    PowPositive(previous, r);
    CancelPivot(p, Pow(previous, r), Det(b), Pow(p, r - 1), x, Det(c), Det(m), Pow(p, r));
    assert IsProduct(Det(b), Pow(p, r - 1), x);
  }

  lemma MinorCondenses(M: Matrix, R: Matrix, k: nat, previous: int, I: seq<nat>, J: seq<nat>, c: Matrix)
    requires Step(M, R, k, previous) && Indices(I, k + 1, |M|) && Indices(J, k + 1, |M|) && |I| == |J| > 0
    requires Square(c) && |c| == |I|
    requires forall i, j :: 0 <= i < |I| && 0 <= j < |I| ==> c[i][j] == previous * Minor(R, I, J)[i][j]
    ensures Indices([k] + I, 0, |M|) && Indices([k] + J, 0, |M|) && Minor(M, [k] + I, [k] + J)[0][0] == M[k][k]
    ensures Condenses(Minor(M, [k] + I, [k] + J), c) && Scales(previous, Minor(R, I, J), c)
  {
    var m := Minor(M, [k] + I, [k] + J);
    forall i, j | 0 <= i < |c| && 0 <= j < |c|
      ensures c[i][j] == m[0][0] * m[i + 1][j + 1] - m[i + 1][0] * m[0][j + 1]
    {
      assert previous * R[I[i]][J[j]] == M[k][k] * M[I[i]][J[j]] - M[I[i]][k] * M[k][J[j]];
    }
  }

  lemma CancelPivot(p: int, q: int, d: int, s: int, x: int, c: int, m: int, t: int)
    requires p > 0 && q > 0 && p * c == t * m && c == q * d && m == q * x && t == p * s
    ensures d == s * x
  {
    assert (p * q) * d == (p * q) * (s * x) by {
      assert p * (q * d) == (p * s) * (q * x);
    }
    SameFactor(p * q, d, s * x);
  }

  lemma SameFactor(f: int, a: int, b: int)
    requires f > 0 && f * a == f * b
    ensures a == b
  {
    assert f * (a - b) == 0;
  }

  /** The elimination always answers, and decides definiteness of what is left. */
  lemma {:induction false} DecideCorrect(M: Matrix, k: nat, previous: int)
    requires Symmetric(M) && k <= |M| && previous > 0 && Divisible(M, k, previous)
    ensures Decide(M, k, previous) == Some(PositiveFrom(M, k))
    decreases |M| - k
  {
    hide Divisible, Eliminated, Form;
    if k == |M| {
    } else if M[k][k] <= 0 {
      BadPivot(M, k);
    } else {
      DivisibleIsExact(M, k, previous);
      EliminatedIsStep(M, k, previous);
      var R := Eliminated(M, k, previous);
      StepKeepsDivisible(M, R, k, previous);
      DecideCorrect(R, k + 1, M[k][k]);
      if PositiveFrom(R, k + 1) {
        PivotForward(M, R, k, previous);
      }
      if PositiveFrom(M, k) {
        PivotBackward(M, R, k, previous);
      }
    }
  }

  /**
    The positivity test answers for every symmetric integer matrix, and answers
    yes iff the shifted form is positive on every nonzero integer vector.
   */
  lemma TestDecidesDefiniteness(M: Matrix, shift: int)
    requires Symmetric(M) && M != [] && shift >= 0
    ensures PositivityTest(M, shift) == Some(PositiveDefinite(Shifted(M, shift)))
  {
    var N := Shifted(M, shift);
    assert Symmetric(N) by {
      forall i, j | 0 <= i < |M| && 0 <= j < |M| ensures N[i][j] == N[j][i] {
        assert M[i][j] == M[j][i];
      }
    }
    AllDivisible(N);
    DecideCorrect(N, 0, 1);
  }

  // ----- the in-place elimination -----

  ghost function View(m: array2<int>): (M: Matrix)
    requires m.Length0 == m.Length1
    reads m
    ensures Square(M) && |M| == m.Length0
  {
    seq(m.Length0, i requires 0 <= i < m.Length0 reads m => seq(m.Length1, j requires 0 <= j < m.Length1 reads m => m[i, j]))
  }

  /** Upper-triangle entry (a, b) precedes (i, j) in row order. */
  ghost predicate Visited(k: nat, i: nat, j: nat, a: nat, b: nat) {
    k < a && k < b && if a <= b then a < i || (a == i && b < j) else b < i || (b == i && a < j)
  }

  /** Visited entries come from R, the others still from M. */
  ghost predicate Progress(m: array2<int>, M: Matrix, R: Matrix, k: nat, i: nat, j: nat)
    requires Square(M) && Square(R) && |M| == |R| == m.Length0 == m.Length1
    reads m
  {
    forall a, b :: 0 <= a < |M| && 0 <= b < |M| ==>
      m[a, b] == if Visited(k, i, j, a, b) then R[a][b] else M[a][b]
  }

  ghost predicate ExactAt(M: Matrix, k: nat, previous: int, a: nat, b: nat)
    requires Square(M) && k < |M| && previous > 0
  {
    a < |M| && b < |M| ==> Numerator(M, k, a, b) % previous == 0
  }

  ghost predicate ExactUpTo(M: Matrix, k: nat, previous: int, i: nat, j: nat)
    requires Square(M) && k < |M| && previous > 0
  {
    forall a, b :: 0 <= a <= b < |M| && Visited(k, i, j, a, b) ==> ExactAt(M, k, previous, a, b)
  }

  lemma EliminatedEntry(M: Matrix, k: nat, previous: int, i: nat, j: nat)
    requires Square(M) && k < i < |M| && k < j < |M| && previous > 0
    ensures Eliminated(M, k, previous)[i][j] == Numerator(M, k, i, j) / previous
                                             == Eliminated(M, k, previous)[j][i]
  {
  }

  lemma ViewIsShifted(m: array2<int>, input: Matrix, shift: int)
    requires Square(input) && |input| == m.Length0 == m.Length1
    requires forall a, b :: 0 <= a < |input| && 0 <= b < |input| ==>
               m[a, b] == if a == b then input[a][b] + shift else input[a][b]
    ensures View(m) == Shifted(input, shift)
  {
    forall a | 0 <= a < |input| ensures View(m)[a] == Shifted(input, shift)[a] {
      assert forall b :: 0 <= b < |input| ==> View(m)[a][b] == Shifted(input, shift)[a][b];
    }
  }

  lemma AllVisited(m: array2<int>, M: Matrix, k: nat, previous: int)
    requires Square(M) && |M| == m.Length0 == m.Length1 && k < |M| && previous > 0
    requires Progress(m, M, Eliminated(M, k, previous), k, |M|, |M|)
    requires ExactUpTo(M, k, previous, |M|, |M|)
    ensures Exact(M, k, previous) && View(m) == Eliminated(M, k, previous)
  {
    forall i, j | k < i < |M| && i <= j < |M| ensures Numerator(M, k, i, j) % previous == 0 {
      assert Visited(k, |M|, |M|, i, j);
      assert ExactAt(M, k, previous, i, j);
    }
    forall a | 0 <= a < |M| ensures View(m)[a] == Eliminated(M, k, previous)[a] {
      assert forall b :: 0 <= b < |M| ==> View(m)[a][b] == Eliminated(M, k, previous)[a][b];
    }
  }

  lemma NothingExact(M: Matrix, k: nat, previous: int)
    requires Square(M) && k < |M| && previous > 0
    ensures ExactUpTo(M, k, previous, k + 1, k + 1)
  {
  }

  lemma NextExact(M: Matrix, k: nat, previous: int, i: nat, j: nat)
    requires Square(M) && previous > 0 && k < i <= j < |M| && ExactUpTo(M, k, previous, i, j)
    ensures if Numerator(M, k, i, j) % previous == 0 then ExactUpTo(M, k, previous, i, j + 1)
            else !Exact(M, k, previous)
  {
  }

  lemma NextRow(M: Matrix, k: nat, previous: int, i: nat)
    requires Square(M) && previous > 0 && k < i < |M| && ExactUpTo(M, k, previous, i, |M|)
    ensures ExactUpTo(M, k, previous, i + 1, i + 1)
  {
    forall a, b | 0 <= a <= b < |M| && Visited(k, i + 1, i + 1, a, b) ensures ExactAt(M, k, previous, a, b) {
      assert Visited(k, i, |M|, a, b);
    }
  }

  /** The working copy of the shifted input, or None when the input is not square. */
  method LoadShifted(input: Matrix, shift: int) returns (r: Option<array2<int>>)
    ensures r.Some? <==> Square(input)
    ensures r.Some? ==> fresh(r.value) && r.value.Length0 == r.value.Length1 == |input|
    ensures r.Some? ==> View(r.value) == Shifted(input, shift)
  {
    var n := |input|;
    var m := new int[n, n];
    for i := 0 to n
      invariant forall a :: 0 <= a < i ==> |input[a]| == n
      invariant forall a, b :: 0 <= a < i && 0 <= b < n ==>
                  m[a, b] == if a == b then input[a][b] + shift else input[a][b]
    {
      if |input[i]| != n {
        return None;
      }
      for j := 0 to n
        invariant forall a, b :: 0 <= a < i && 0 <= b < n ==>
                    m[a, b] == if a == b then input[a][b] + shift else input[a][b]
        invariant forall b :: 0 <= b < j ==> m[i, b] == input[i][b]
      {
        m[i, j] := input[i][j];
      }
      m[i, i] := m[i, i] + shift;
    }
    ViewIsShifted(m, input, shift);
    return Some(m);
  }

  lemma ProgressStart(m: array2<int>, R: Matrix, k: nat)
    requires m.Length0 == m.Length1 && Square(R) && |R| == m.Length0
    ensures Progress(m, View(m), R, k, k + 1, k + 1)
  {
  }

  lemma ProgressRow(m: array2<int>, M: Matrix, R: Matrix, k: nat, i: nat)
    requires Square(M) && Square(R) && |M| == |R| == m.Length0 == m.Length1
    requires k < i < |M| && Progress(m, M, R, k, i, |M|)
    ensures Progress(m, M, R, k, i + 1, i + 1)
  {
  }

  /** The entries a step reads are still those of the matrix before the elimination. */
  lemma NumeratorAt(m: array2<int>, M: Matrix, R: Matrix, k: nat, i: nat, j: nat)
    requires Square(M) && Square(R) && |M| == |R| == m.Length0 == m.Length1
    requires k < i <= j < |M| && Progress(m, M, R, k, i, j)
    ensures m[i, j] == M[i][j] && m[i, k] == M[i][k] && m[k, j] == M[k][j]
  {
  }

  method StoreEntry(m: array2<int>, ghost M: Matrix, ghost R: Matrix, k: nat, i: nat, j: nat, value: int)
    requires Square(M) && Square(R) && |M| == |R| == m.Length0 == m.Length1
    requires k < i <= j < |M| && Progress(m, M, R, k, i, j)
    requires value == R[i][j] == R[j][i]
    modifies m
    ensures Progress(m, M, R, k, i, j + 1)
  {
    m[i, j] := value;
    m[j, i] := m[i, j];
  }

  /** One elimination step in place; false means that a division was not exact. */
  method EliminateBelow(m: array2<int>, k: nat, previous: int) returns (exact: bool)
    requires m.Length0 == m.Length1 && k < m.Length0 && previous > 0
    modifies m
    ensures exact <==> Exact(old(View(m)), k, previous)
    ensures exact ==> View(m) == Eliminated(old(View(m)), k, previous)
  {
    ghost var M, R := View(m), Eliminated(View(m), k, previous);
    var pivot := m[k, k];
    assert pivot == M[k][k];
    hide Eliminated, Exact, ExactUpTo, ExactAt, Progress, View;
    NothingExact(M, k, previous);
    ProgressStart(m, R, k);
    for i := k + 1 to m.Length0
      invariant Progress(m, M, R, k, i, i)
      invariant ExactUpTo(M, k, previous, i, i)
    {
      for j := i to m.Length0
        invariant Progress(m, M, R, k, i, j)
        invariant ExactUpTo(M, k, previous, i, j)
      {
        NumeratorAt(m, M, R, k, i, j);
        var numerator := pivot * m[i, j] - m[i, k] * m[k, j];
        EliminatedEntry(M, k, previous, i, j);
        NextExact(M, k, previous, i, j);
        if numerator % previous != 0 {
          return false;
        }
        StoreEntry(m, M, R, k, i, j, numerator / previous);
      }
      NextRow(M, k, previous, i);
      ProgressRow(m, M, R, k, i);
    }
    AllVisited(m, M, k, previous);
    return true;
  }

  method StrictlyPositiveDefinite(input: Matrix, shift: int) returns (r: Option<bool>)
    ensures r == PositivityTest(input, shift)
  {
    hide Eliminated, Exact, Shifted;
    if shift < 0 || input == [] {
      return Some(false);
    }
    var loaded := LoadShifted(input, shift);
    if loaded.None? {
      return None;
    }
    var m := loaded.value;
    var previous := 1;
    for k := 0 to |input|
      invariant previous > 0
      invariant Decide(View(m), k, previous) == PositivityTest(input, shift)
    {
      var pivot := m[k, k];
      if pivot <= 0 {
        return Some(false);
      }
      var exact := EliminateBelow(m, k, previous);
      if !exact {
        return None;
      }
      previous := pivot;
    }
    return Some(true);
  }
}
