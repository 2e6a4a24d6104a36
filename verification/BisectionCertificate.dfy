/**
  The exact integer checker for bisection dual certificates: an accepted
  certificate bounds the cut of every vertex set of the certified cardinality.
 */
module BisectionCertificates {
  import opened Graphs
  import opened Options
  import opened QuadraticForms
  import opened Bareiss
  import opened StrictShifts
  import opened CutForms

  const UINT32_MAX: nat := 0xFFFF_FFFF

  datatype ProofKind = RowwiseDiagonalDominance | ExactShiftedBareiss

  /** A correlation-triangle inequality with its multiplier. */
  datatype Triangle = Triangle(a: nat, b: nat, c: nat, form: nat, numerator: int)

  datatype Certificate = Certificate(
    valid: bool,
    vertexCount: nat,
    cardinality: nat,
    fractionalBits: nat,
    proofKind: ProofKind,
    y: seq<int>,
    z: int,
    repairs: seq<int>,
    triangles: seq<Triangle>,
    objective: int,
    denominator: int,
    bound: Option<nat>)

  function Pow2(n: nat): (r: nat)
    ensures r > 0
    ensures n >= 2 ==> r % 4 == 0
  {
    if n == 0 then 1 else if n == 1 then 2 else 2 * Pow2(n - 1)
  }

  lemma PowersOfTwo(n: nat)
    ensures Pow2(0) == 1 && Pow2(n + 1) == 2 * Pow2(n)
  {
  }

  /** The ceiling of a quotient as an unsigned 32-bit value, if it fits. */
  function NonnegativeCeiling(numerator: int, denominator: int): (r: Option<nat>)
    requires denominator > 0
    ensures r.Some? ==> r.value * denominator >= numerator
    ensures r.Some? && r.value > 0 ==> (r.value - 1) * denominator < numerator
    ensures r.None? <==> numerator > 0xFFFF_FFFF * denominator
  {
    if numerator <= 0 then Some(0)
    else
      CeilingFacts(numerator, denominator);
      var value := (numerator + denominator - 1) / denominator;
      if value > UINT32_MAX then None else Some(value)
  }

  lemma CeilingFacts(a: int, d: int)
    requires d > 0 && a > 0
    ensures var v := (a + d - 1) / d; v > 0 && v * d >= a && (v - 1) * d < a
    ensures (a + d - 1) / d > UINT32_MAX <==> a > UINT32_MAX * d
  {
    var v := (a + d - 1) / d;
    var r := (a + d - 1) % d;
    assert a + d - 1 == v * d + r && 0 <= r < d;
    assert (v - 1) * d == v * d - d;
    if v <= UINT32_MAX {
      Monotone(v, UINT32_MAX, d);
    } else {
      Monotone(UINT32_MAX, v - 1, d);
    }
    if v <= 0 {
      Monotone(v, 0, d);
    }
  }

  lemma CeilingIsLeast(numerator: int, denominator: int, value: int)
    requires denominator > 0 && value * denominator >= numerator && value >= 0
    ensures NonnegativeCeiling(numerator, denominator).Some? ==> value >= NonnegativeCeiling(numerator, denominator).value
  {
    var r := NonnegativeCeiling(numerator, denominator);
    if r.Some? && value < r.value {
      Monotone(value, r.value - 1, denominator);
    }
  }

  // ----- triangles -----

  function TriangleSign(form: nat, pair: nat): int {
    if form == 0 then 1 else if form == pair + 1 then 1 else -1
  }

  predicate WellFormed(t: Triangle, n: nat) {
    t.a < t.b < t.c < n && t.form < 4
  }

  /** (i, j) and (j, i) reduced by delta. */
  function ReducePair(M: Matrix, i: nat, j: nat, delta: int): (R: Matrix)
    requires Square(M) && i < j < |M|
    ensures Square(R) && |R| == |M|
  {
    var entry := M[i][j] - delta;
    var N := M[i := M[i][j := entry]];
    N[j := N[j][i := entry]]
  }

  function AddTriangle(M: Matrix, t: Triangle): (R: Matrix)
    requires Square(M) && WellFormed(t, |M|)
    ensures Square(R) && |R| == |M|
  {
    var M1 := ReducePair(M, t.a, t.b, t.numerator * TriangleSign(t.form, 0) / 2);
    var M2 := ReducePair(M1, t.a, t.c, t.numerator * TriangleSign(t.form, 1) / 2);
    ReducePair(M2, t.b, t.c, t.numerator * TriangleSign(t.form, 2) / 2)
  }

  predicate AllWellFormed(ts: seq<Triangle>, n: nat) {
    forall t :: t in ts ==> WellFormed(t, n)
  }

  predicate AllEven(ts: seq<Triangle>) {
    forall t :: t in ts ==> t.numerator % 2 == 0
  }

  function WithTriangles(M: Matrix, ts: seq<Triangle>): (R: Matrix)
    requires Square(M) && AllWellFormed(ts, |M|)
    ensures Square(R) && |R| == |M|
    decreases |ts|
  {
    if ts == [] then M else AddTriangle(WithTriangles(M, ts[..|ts| - 1]), ts[|ts| - 1])
  }

  /** The slack numerator matrix, or the empty matrix when a triangle is unusable. */
  function Slack(g: Graph, y: seq<int>, z: int, denominator: nat, ts: seq<Triangle>): (M: Matrix)
    requires |y| == Size(g)
    ensures Square(M)
  {
    if AllWellFormed(ts, Size(g)) && AllEven(ts)
    then WithTriangles(Base(g, y, z, denominator / 4), ts)
    else []
  }

  lemma {:induction false} ReduceRowDot(M: Matrix, i: nat, j: nat, delta: int, x: seq<int>, r: nat, c: nat)
    requires Square(M) && i < j < |M| && |x| == |M| && r < |M| && M[i][j] == M[j][i]
    ensures RowDot(ReducePair(M, i, j, delta), x, r, c) ==
            RowDot(M, x, r, c) - (if r == i && c <= j then delta * x[j] else 0)
                               - (if r == j && c <= i then delta * x[i] else 0)
    decreases |M| - c
  {
    if c < |M| {
      ReduceRowDot(M, i, j, delta, x, r, c + 1);
      if (r == i && c == j) || (r == j && c == i) {
        assert (M[r][c] - delta) * x[c] == M[r][c] * x[c] - delta * x[c];
      }
    }
  }

  lemma {:induction false} ReduceRows(M: Matrix, i: nat, j: nat, delta: int, x: seq<int>, r: nat)
    requires Square(M) && i < j < |M| && |x| == |M| && M[i][j] == M[j][i]
    ensures Rows(ReducePair(M, i, j, delta), x, r, 0) ==
            Rows(M, x, r, 0) - (if r <= i then delta * (x[i] * x[j]) else 0)
                             - (if r <= j then delta * (x[i] * x[j]) else 0)
    decreases |M| - r
  {
    hide ReducePair, RowDot, Square;
    if r < |M| {
      ReduceRowDot(M, i, j, delta, x, r, 0);
      ReduceRows(M, i, j, delta, x, r + 1);
      var d := RowDot(M, x, r, 0);
      if r == i {
        ReducedTerm(x[i], d, delta, x[j]);
      } else if r == j {
        ReducedTerm(x[j], d, delta, x[i]);
      }
    }
  }

  lemma ReducedTerm(a: int, d: int, delta: int, b: int)
    ensures a * (d - delta * b) == a * d - delta * (a * b) && a * b == b * a
  {
  }

  /** The value of the triangle form at a sign vector, without its constant 1. */
  ghost function TriangleValue(t: Triangle, x: seq<int>): int
    requires WellFormed(t, |x|)
  {
    TriangleSign(t.form, 0) * (x[t.a] * x[t.b]) + TriangleSign(t.form, 1) * (x[t.a] * x[t.c])
    + TriangleSign(t.form, 2) * (x[t.b] * x[t.c])
  }

  lemma ReduceForm(M: Matrix, i: nat, j: nat, m: int, s: int, x: seq<int>)
    requires Symmetric(M) && i < j < |M| && |x| == |M| && m % 2 == 0 && (s == 1 || s == -1)
    ensures Symmetric(ReducePair(M, i, j, m * s / 2))
    ensures Form(ReducePair(M, i, j, m * s / 2), x, 0) == Form(M, x, 0) - m * (s * (x[i] * x[j]))
  {
    hide ReducePair, Rows, Symmetric;
    var delta := m * s / 2;
    ReducedSymmetric(M, i, j, delta);
    ReduceRows(M, i, j, delta, x, 0);
    TwoHalves(m, s, x[i] * x[j]);
  }

  lemma ReducedSymmetric(M: Matrix, i: nat, j: nat, delta: int)
    requires Symmetric(M) && i < j < |M|
    ensures Symmetric(ReducePair(M, i, j, delta)) && Square(M) && M[i][j] == M[j][i]
  {
    var R := ReducePair(M, i, j, delta);
    forall a, b | 0 <= a < |M| && 0 <= b < |M| ensures R[a][b] == R[b][a] {
      assert M[a][b] == M[b][a];
    }
  }

  lemma TwoHalves(m: int, s: int, p: int)
    requires m % 2 == 0 && (s == 1 || s == -1)
    ensures m * s / 2 * p + m * s / 2 * p == m * (s * p)
  {
  }

  lemma TriangleForm(M: Matrix, t: Triangle, x: seq<int>)
    requires Symmetric(M) && WellFormed(t, |M|) && |x| == |M| && t.numerator % 2 == 0
    ensures Symmetric(AddTriangle(M, t))
    ensures Form(AddTriangle(M, t), x, 0) == Form(M, x, 0) - t.numerator * TriangleValue(t, x)
  {
    hide Form, ReducePair;
    var m := t.numerator;
    var s0, s1, s2 := TriangleSign(t.form, 0), TriangleSign(t.form, 1), TriangleSign(t.form, 2);
    ReduceForm(M, t.a, t.b, m, s0, x);
    var M1 := ReducePair(M, t.a, t.b, m * s0 / 2);
    ReduceForm(M1, t.a, t.c, m, s1, x);
    var M2 := ReducePair(M1, t.a, t.c, m * s1 / 2);
    ReduceForm(M2, t.b, t.c, m, s2, x);
    var u, v, w := s0 * (x[t.a] * x[t.b]), s1 * (x[t.a] * x[t.c]), s2 * (x[t.b] * x[t.c]);
    assert m * (u + v + w) == m * u + m * v + m * w;
  }

  ghost function Multipliers(ts: seq<Triangle>): int {
    if ts == [] then 0 else Multipliers(ts[..|ts| - 1]) + ts[|ts| - 1].numerator
  }

  ghost predicate IsSigns(x: seq<int>) {
    forall i :: 0 <= i < |x| ==> x[i] == 1 || x[i] == -1
  }

  /** 1 + s_ab x_a x_b + s_ac x_a x_c + s_bc x_b x_c >= 0 on sign vectors. */
  lemma TriangleInequality(t: Triangle, x: seq<int>)
    requires WellFormed(t, |x|) && IsSigns(x)
    ensures TriangleValue(t, x) >= -1
  {
    var p, q, r := x[t.a] * x[t.b], x[t.a] * x[t.c], x[t.b] * x[t.c];
    assert (p == 1 || p == -1) && (q == 1 || q == -1);
    assert r == p * q by {
      if x[t.a] == 1 { } else { }
    }
  }

  lemma {:induction false} TrianglesLower(M: Matrix, ts: seq<Triangle>, x: seq<int>)
    requires Symmetric(M) && AllWellFormed(ts, |M|) && AllEven(ts) && |x| == |M| && IsSigns(x)
    requires forall t :: t in ts ==> t.numerator >= 0
    ensures Symmetric(WithTriangles(M, ts))
    ensures Form(WithTriangles(M, ts), x, 0) <= Form(M, x, 0) + Multipliers(ts)
    decreases |ts|
  {
    if ts != [] {
      var last := ts[|ts| - 1];
      assert last in ts;
      TrianglesLower(M, ts[..|ts| - 1], x);
      TriangleForm(WithTriangles(M, ts[..|ts| - 1]), last, x);
      TriangleInequality(last, x);
      Monotone(-1, TriangleValue(last, x), last.numerator);
    }
  }

  // ----- acceptance -----

  /** sum y - sum repairs + z h^2 - sum of the triangle multipliers */
  ghost function Objective(c: Certificate): int {
    var h := 2 * c.cardinality - c.vertexCount;
    c.z * (h * h) + Total(c.y, 0) - Total(c.repairs, 0) - Multipliers(c.triangles)
  }

  ghost predicate WellShaped(g: Graph, c: Certificate) {
    && c.bound.Some?
    && Size(g) != 0 && c.vertexCount == Size(g)
    && 0 < c.cardinality < Size(g)
    && 2 <= c.fractionalBits <= 50
    && |c.y| == |c.repairs| == Size(g)
    && c.denominator == Pow2(c.fractionalBits)
    && (forall i :: 0 <= i < |c.repairs| ==> c.repairs[i] >= 0)
    && (forall t :: t in c.triangles ==> t.numerator >= 0 && t.numerator % 2 == 0 && WellFormed(t, Size(g)))
  }

  /** The proof carried by the repairs that the repaired slack has no negative value on signs. */
  ghost predicate Proved(M: Matrix, repairs: seq<int>, kind: ProofKind)
    requires Square(M) && |repairs| == |M| && |M| > 0
  {
    match kind
    case RowwiseDiagonalDominance =>
      forall i :: 0 <= i < |M| ==> Margin(M, i) + repairs[i] >= 0
    case ExactShiftedBareiss =>
      (forall i :: 0 <= i < |M| ==> repairs[i] == repairs[0]) && PositivityTest(M, repairs[0]) == Some(true)
  }

  ghost predicate Accepts(g: Graph, c: Certificate) {
    && WellShaped(g, c)
    && var M := Slack(g, c.y, c.z, c.denominator, c.triangles);
    && |M| == Size(g)
    && Proved(M, c.repairs, c.proofKind)
    && c.objective == Objective(c)
    && NonnegativeCeiling(c.objective, c.denominator) == c.bound
  }

  lemma {:induction false} SignSquares(d: seq<int>, x: seq<int>, k: nat)
    requires |d| == |x| && IsSigns(x)
    ensures WeightedSquares(d, x, k) == Total(d, k)
    decreases |d| - k
  {
    if k < |d| {
      SignSquares(d, x, k + 1);
      assert x[k] * x[k] == 1;
    }
  }

  /** Either proof kind keeps the form above minus the total repair on sign vectors. */
  lemma ProvedLower(M: Matrix, repairs: seq<int>, kind: ProofKind, x: seq<int>)
    requires Symmetric(M) && |repairs| == |M| == |x| && |M| > 0 && IsSigns(x)
    requires forall i :: 0 <= i < |M| ==> repairs[i] >= 0
    requires Proved(M, repairs, kind)
    ensures Form(M, x, 0) + Total(repairs, 0) >= 0
  {
    SignSquares(repairs, x, 0);
    match kind
    case RowwiseDiagonalDominance =>
      Dominance(M, x, 0);
      var d := PartialMargins(M, 0);
      var f := seq(|M|, i requires 0 <= i < |M| => d[i] + repairs[i]);
      AddWeights(d, repairs, f, x, 0);
      forall i | 0 <= i < |M| ensures f[i] >= 0 {
        assert Margin(M, i) + repairs[i] >= 0;
      }
      WeightedSquaresMonotone(Constant(|M|, 0), f, x, 0);
      SignSquares(Constant(|M|, 0), x, 0);
      TotalZero(Constant(|M|, 0), 0);
    case ExactShiftedBareiss =>
      TestDecidesDefiniteness(M, repairs[0]);
      assert x[0] != 0;
      assert NonzeroFrom(x, 0);
      ShiftedForm(M, repairs[0], x);
      assert repairs == Constant(|M|, repairs[0]);
  }

  lemma {:induction false} TotalZero(d: seq<int>, k: nat)
    requires forall i :: 0 <= i < |d| ==> d[i] == 0
    ensures Total(d, k) == 0
    decreases |d| - k
  {
    if k < |d| {
      TotalZero(d, k + 1);
    }
  }

  /**
    Soundness: an accepted certificate bounds the cut of every vertex set of the
    certified cardinality, for both proof kinds and with triangle multipliers.
   */
  lemma CertificateSound(g: Graph, c: Certificate, T: set<Vertex>)
    requires Accepts(g, c)
    requires T <= Vertices(g) && |T| == c.cardinality
    ensures Cut(g, T) >= c.bound.value
  {
    var x := Signs(T, Size(g));
    var quarter := c.denominator / 4;
    var base := Base(g, c.y, c.z, quarter);
    var M := Slack(g, c.y, c.z, c.denominator, c.triangles);
    var h := 2 * c.cardinality - c.vertexCount;
    BaseSymmetric(g, c.y, c.z, quarter);
    BaseForm(g, c.y, c.z, quarter, T, h);
    TrianglesLower(base, c.triangles, x);
    ProvedLower(M, c.repairs, c.proofKind, x);
    assert c.denominator == 4 * quarter;
    assert c.denominator * Cut(g, T) >= c.objective;
    CeilingIsLeast(c.objective, c.denominator, Cut(g, T));
  }

  // ----- the checker -----

  method BuildBase(g: Graph, y: seq<int>, z: int, quarter: int) returns (matrix: Matrix)
    requires |y| == Size(g)
    ensures matrix == Base(g, y, z, quarter)
  {
    var n := Size(g);
    ghost var B := Base(g, y, z, quarter);
    BaseSymmetric(g, y, z, quarter);
    matrix := seq(n, _ => seq(n, _ => 0));
    for i := 0 to n
      invariant Square(matrix) && |matrix| == n
      invariant forall a, b :: 0 <= a < n && 0 <= b < n && (a < i || b < i) ==> matrix[a][b] == B[a][b]
    {
      matrix := matrix[i := matrix[i][i := quarter * Degree(g, i) - y[i] - z]];
      for j := i + 1 to n
        invariant Square(matrix) && |matrix| == n
        invariant forall a, b :: 0 <= a < n && 0 <= b < n && (a < i || b < i) ==> matrix[a][b] == B[a][b]
        invariant forall b :: i <= b < j ==> matrix[i][b] == B[i][b] && matrix[b][i] == B[b][i]
      {
        var entry := -z;
        if Adjacent(g, i, j) {
          entry := entry - quarter;
        }
        assert B[i][j] == entry == B[j][i];
        matrix := matrix[i := matrix[i][j := entry]];
        matrix := matrix[j := matrix[j][i := entry]];
      }
    }
    assert forall a :: 0 <= a < n ==> matrix[a] == B[a];
    assert matrix == B;
  }

  method BuildSlack(g: Graph, y: seq<int>, z: int, denominator: nat, ts: seq<Triangle>) returns (matrix: Matrix)
    requires |y| == Size(g)
    ensures matrix == Slack(g, y, z, denominator, ts)
  {
    hide Base, AddTriangle, Square;
    var n := Size(g);
    ghost var B := Base(g, y, z, denominator / 4);
    matrix := BuildBase(g, y, z, denominator / 4);
    assert ts[..0] == [];
    for k := 0 to |ts|
      invariant AllWellFormed(ts[..k], n) && AllEven(ts[..k])
      invariant matrix == WithTriangles(B, ts[..k])
    {
      var t := ts[k];
      if !WellFormed(t, n) || t.numerator % 2 != 0 {
        assert t in ts;
        return [];
      }
      matrix := AddTriangle(matrix, t);
      assert ts[..k + 1][..k] == ts[..k];
    }
    assert ts[..|ts|] == ts;
  }

  method CheckRows(M: Matrix, repairs: seq<int>) returns (ok: bool)
    requires Square(M) && |repairs| == |M| && |M| > 0
    ensures ok <==> Proved(M, repairs, RowwiseDiagonalDominance)
  {
    for i := 0 to |M|
      invariant forall a :: 0 <= a < i ==> Margin(M, a) + repairs[a] >= 0
    {
      var bound := M[i][i] + repairs[i];
      for j := 0 to |M|
        invariant bound == M[i][i] + repairs[i] - OffDiagonal(M, i, 0) + OffDiagonal(M, i, j)
      {
        if i != j {
          bound := bound - Abs(M[i][j]);
        }
      }
      if bound < 0 {
        return false;
      }
    }
    return true;
  }

  method CheckShift(M: Matrix, repairs: seq<int>) returns (ok: bool)
    requires Square(M) && |repairs| == |M| && |M| > 0
    ensures ok <==> Proved(M, repairs, ExactShiftedBareiss)
  {
    for i := 0 to |repairs|
      invariant forall a :: 0 <= a < i ==> repairs[a] == repairs[0]
    {
      if repairs[i] != repairs[0] {
        return false;
      }
    }
    var positive := StrictlyPositiveDefinite(M, repairs[0]);
    return positive.Some? && positive.value;
  }

  method ComputeObjective(y: seq<int>, z: int, repairs: seq<int>, ts: seq<Triangle>, h: int) returns (objective: int)
    requires |y| == |repairs|
    ensures objective == z * (h * h) + Total(y, 0) - Total(repairs, 0) - Multipliers(ts)
  {
    objective := z * (h * h);
    for i := 0 to |y|
      invariant objective == z * (h * h) + (Total(y, 0) - Total(y, i)) - (Total(repairs, 0) - Total(repairs, i))
    {
      objective := objective + (y[i] - repairs[i]);
    }
    for k := 0 to |ts|
      invariant objective == z * (h * h) + Total(y, 0) - Total(repairs, 0) - Multipliers(ts[..k])
    {
      objective := objective - ts[k].numerator;
      assert ts[..k + 1][..k] == ts[..k];
    }
    assert ts[..|ts|] == ts;
  }

  method VerifyBisection(g: Graph, c: Certificate) returns (ok: bool)
    ensures ok <==> Accepts(g, c)
  {
    if c.bound.None? || Size(g) == 0 || c.vertexCount != Size(g) || c.cardinality == 0 ||
       c.cardinality >= Size(g) || c.fractionalBits < 2 || c.fractionalBits > 50 ||
       |c.y| != Size(g) || |c.repairs| != Size(g) || c.denominator != Pow2(c.fractionalBits) {
      return false;
    }
    for i := 0 to |c.repairs|
      invariant forall a :: 0 <= a < i ==> c.repairs[a] >= 0
    {
      if c.repairs[i] < 0 {
        return false;
      }
    }
    for k := 0 to |c.triangles|
      invariant forall a :: 0 <= a < k ==>
                  c.triangles[a].numerator >= 0 && c.triangles[a].numerator % 2 == 0 &&
                  WellFormed(c.triangles[a], Size(g))
    {
      var t := c.triangles[k];
      if t.numerator < 0 || t.numerator % 2 != 0 || !WellFormed(t, Size(g)) {
        assert t in c.triangles;
        return false;
      }
    }
    var M := BuildSlack(g, c.y, c.z, c.denominator, c.triangles);
    if |M| != Size(g) {
      return false;
    }
    var proved;
    match c.proofKind {
      case RowwiseDiagonalDominance => proved := CheckRows(M, c.repairs);
      case ExactShiftedBareiss => proved := CheckShift(M, c.repairs);
    }
    if !proved {
      return false;
    }
    var objective := ComputeObjective(c.y, c.z, c.repairs, c.triangles, 2 * c.cardinality - Size(g));
    if objective != c.objective {
      return false;
    }
    return NonnegativeCeiling(objective, c.denominator) == c.bound;
  }

  // ----- building a certificate from quantised multipliers -----

  ghost predicate Usable(g: Graph, cardinality: nat, y: seq<Option<int>>, z: Option<int>, bits: nat,
                         cuts: seq<Triangle>, halves: seq<Option<nat>>)
  {
    && Size(g) != 0 && 0 < cardinality < Size(g) && |y| == Size(g) && 2 <= bits <= 50
    && |cuts| == |halves| && z.Some?
    && (forall i :: 0 <= i < |y| ==> y[i].Some?)
    && (forall i :: 0 <= i < |cuts| ==> WellFormed(cuts[i], Size(g)) && halves[i].Some?)
  }

  method QuantiseAll(y: seq<Option<int>>) returns (r: Option<seq<int>>)
    ensures r.Some? <==> forall i :: 0 <= i < |y| ==> y[i].Some?
    ensures r.Some? ==> |r.value| == |y|
    ensures r.Some? ==> forall i :: 0 <= i < |y| ==> y[i] == Some(r.value[i])
  {
    var values: seq<int> := [];
    for i := 0 to |y|
      invariant |values| == i && forall a :: 0 <= a < i ==> y[a] == Some(values[a])
    {
      if y[i].None? {
        return None;
      }
      values := values + [y[i].value];
    }
    return Some(values);
  }

  /** The repairs are all the least shift that makes the form positive. */
  ghost predicate LeastRepairs(M: Matrix, repairs: seq<int>, kind: ProofKind) {
    && Square(M) && |repairs| == |M| > 0 && kind == ExactShiftedBareiss
    && (forall i :: 0 <= i < |M| ==> repairs[i] == repairs[0] >= 0)
    && PositiveDefinite(Shifted(M, repairs[0]))
    && forall s :: 0 <= s < repairs[0] ==> !PositiveDefinite(Shifted(M, s))
  }

  lemma SlackIsSymmetric(g: Graph, y: seq<int>, z: int, denominator: nat, ts: seq<Triangle>)
    requires |y| == Size(g) && AllWellFormed(ts, Size(g)) && AllEven(ts) && forall t :: t in ts ==> t.numerator >= 0
    ensures Symmetric(Slack(g, y, z, denominator, ts))
  {
    hide Symmetric, WithTriangles, Form;
    BaseSymmetric(g, y, z, denominator / 4);
    TrianglesLower(Base(g, y, z, denominator / 4), ts, seq(Size(g), _ => 1));
  }

  /** Repairs that make every row dominant, replaced by the least strict shift when one is found. */
  method ChooseRepairs(M: Matrix) returns (repairs: seq<int>, kind: ProofKind)
    requires Square(M) && |M| > 0
    ensures |repairs| == |M| && (forall i :: 0 <= i < |M| ==> repairs[i] >= 0)
    ensures Proved(M, repairs, kind)
    ensures Symmetric(M) ==> LeastRepairs(M, repairs, kind)
  {
    hide Symmetric;
    repairs := seq(|M|, _ => 0);
    for i := 0 to |M|
      invariant |repairs| == |M| && forall a :: 0 <= a < |M| ==> repairs[a] >= 0
      invariant forall a :: 0 <= a < i ==> Margin(M, a) + repairs[a] >= 0
    {
      var margin := RowMargin(M, i);
      repairs := repairs[i := if margin < 0 then -margin else 0];
    }
    kind := RowwiseDiagonalDominance;
    var shift := MinimumStrictShift(M);
    if shift.Some? {
      kind := ExactShiftedBareiss;
      repairs := Constant(|M|, shift.value);
    }
  }

  /** The certificate holds the multipliers it was made from, each in its place; those of triangles are doubled. */
  ghost predicate CarriesInput(c: Certificate, y: seq<Option<int>>, z: Option<int>, cuts: seq<Triangle>,
                               halves: seq<Option<nat>>)
  {
    && z == Some(c.z) && |c.y| == |y| && |c.triangles| == |cuts| == |halves|
    && (forall i :: 0 <= i < |y| ==> y[i] == Some(c.y[i]))
    && (forall i :: 0 <= i < |cuts| ==>
          halves[i].Some? && c.triangles[i] == cuts[i].(numerator := 2 * halves[i].value))
  }

  /**
    Whatever is built from usable quantised input with a representable bound is
    accepted by the checker; everything else is marked invalid.  Usable input is
    kept as it is, repaired by the least strict shift, and summed up in the objective.
   */
  method RecoverBisection(g: Graph, cardinality: nat, y: seq<Option<int>>, z: Option<int>, bits: nat,
                          cuts: seq<Triangle>, halves: seq<Option<nat>>) returns (c: Certificate)
    ensures c.valid ==> Accepts(g, c)
    ensures c.valid <==> Usable(g, cardinality, y, z, bits, cuts, halves)
                         && NonnegativeCeiling(c.objective, Pow2(bits)).Some?
    ensures c.vertexCount == Size(g) && c.cardinality == cardinality && c.fractionalBits == bits
    ensures Usable(g, cardinality, y, z, bits, cuts, halves) ==>
              && CarriesInput(c, y, z, cuts, halves)
              && c.denominator == Pow2(bits) && c.bound == NonnegativeCeiling(c.objective, Pow2(bits))
              && LeastRepairs(Slack(g, c.y, c.z, c.denominator, c.triangles), c.repairs, c.proofKind)
              && c.objective == c.z * ((2 * cardinality - Size(g)) * (2 * cardinality - Size(g)))
                                + Total(c.y, 0) - Total(c.repairs, 0) - Multipliers(c.triangles)
  {
    hide Base, LeastRepairs, Symmetric, WithTriangles, Proved, NonnegativeCeiling, Pow2, Total, Multipliers;
    c := Certificate(false, Size(g), cardinality, bits, RowwiseDiagonalDominance, [], 0, [], [], 0, 1, None);
    if Size(g) == 0 || cardinality == 0 || cardinality >= Size(g) || |y| != Size(g) || bits < 2 || bits > 50 ||
       |cuts| != |halves| || z.None? {
      return;
    }
    var exact := QuantiseAll(y);
    if exact.None? {
      return;
    }
    var triangles: seq<Triangle> := [];
    for i := 0 to |cuts|
      invariant |triangles| == i
      invariant forall a :: 0 <= a < i ==> WellFormed(cuts[a], Size(g)) && halves[a].Some?
      invariant forall t :: t in triangles ==> t.numerator >= 0 && t.numerator % 2 == 0 && WellFormed(t, Size(g))
      invariant forall a :: 0 <= a < i ==> triangles[a] == cuts[a].(numerator := 2 * halves[a].value)
    {
      if !WellFormed(cuts[i], Size(g)) || halves[i].None? {
        return;
      }
      triangles := triangles + [cuts[i].(numerator := halves[i].value * 2)];
    }
    var slack := BuildSlack(g, exact.value, z.value, Pow2(bits), triangles);
    SlackIsSymmetric(g, exact.value, z.value, Pow2(bits), triangles);
    var repairs, kind := ChooseRepairs(slack);
    var objective := ComputeObjective(exact.value, z.value, repairs, triangles, 2 * cardinality - Size(g));
    var bound := NonnegativeCeiling(objective, Pow2(bits));
    c := Certificate(false, Size(g), cardinality, bits, kind, exact.value, z.value, repairs, triangles,
                     objective, Pow2(bits), bound);
    if bound.Some? {
      var ok := VerifyBisection(g, c);
      c := c.(valid := ok);
    }
  }

  lemma {:induction false} TotalSign(d: seq<int>, k: nat)
    requires forall i :: 0 <= i < |d| ==> d[i] >= 0
    ensures Total(d, k) >= 0
    decreases |d| - k
  {
    if k < |d| {
      TotalSign(d, k + 1);
    }
  }

  lemma RepairsAreNonnegative(M: Matrix, repairs: seq<int>, kind: ProofKind)
    requires LeastRepairs(M, repairs, kind)
    ensures forall i :: 0 <= i < |repairs| ==> repairs[i] >= 0
  {
    hide PositiveDefinite, Square;
  }

  /** Multipliers that are all zero certify the bound zero, for every graph, proper cardinality and precision. */
  method TrivialBisection(g: Graph, cardinality: nat, bits: nat) returns (c: Certificate)
    requires 0 < cardinality < Size(g) && 2 <= bits <= 50
    ensures c.valid && c.bound == Some(0) && forall i :: 0 <= i < |c.y| ==> c.y[i] == 0
  {
    hide LeastRepairs, Total, Slack, Accepts;
    c := RecoverBisection(g, cardinality, seq(Size(g), _ => Some(0)), Some(0), bits, [], []);
    RepairsAreNonnegative(Slack(g, c.y, c.z, c.denominator, c.triangles), c.repairs, c.proofKind);
    TotalSign(c.repairs, 0);
    TotalZero(c.y, 0);
    assert c.z * ((2 * cardinality - Size(g)) * (2 * cardinality - Size(g))) == 0;
    assert c.objective <= 0;
  }
}
