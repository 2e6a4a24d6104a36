/**
  The weighted bisection certificate: a lower bound on the residual cut plus the
  boundary weight left outside T, proved through a slack matrix with one extra
  homogenising row.  The checker halves the linear numerator without testing
  that it is even; soundness holds exactly when it is.
 */
module WeightedCertificates {
  import opened Graphs
  import opened Options
  import opened QuadraticForms
  import opened Bareiss
  import opened StrictShifts
  import opened CutForms
  import opened BisectionCertificates

  datatype WeightedCertificate = WeightedCertificate(
    valid: bool,
    modelHash: nat,
    vertexCount: nat,
    cardinality: nat,
    fractionalBits: nat,
    proofKind: ProofKind,
    constant: int,
    y: seq<int>,
    linear: int,
    squared: int,
    repairs: seq<int>,
    objective: int,
    denominator: int,
    bound: Option<nat>)

  /** Division by two, truncated toward zero. */
  function Half(v: int): int {
    if v >= 0 then v / 2 else -((-v) / 2)
  }

  function Weight(b: seq<nat>, i: nat): nat
    decreases |b| - i
  {
    if i >= |b| then 0 else b[i] + Weight(b, i + 1)
  }

  /** The boundary weight of the vertices >= i outside T. */
  ghost function OutsideFrom(b: seq<nat>, T: set<Vertex>, i: nat): nat
    decreases |b| - i
  {
    if i >= |b| then 0 else (if i in T then 0 else b[i]) + OutsideFrom(b, T, i + 1)
  }

  /** What the certificate bounds: the residual cut of T plus the boundary weight outside T. */
  ghost function WeightedValue(g: Graph, b: seq<nat>, T: set<Vertex>): nat {
    Cut(g, T) + OutsideFrom(b, T, 0)
  }

  // ----- the homogenised slack matrix -----

  function BorderEntry(b: seq<nat>, r: int, quarter: int, i: nat): int
    requires i < |b|
  {
    -quarter * b[i] - Half(r)
  }

  function CornerEntry(b: seq<nat>, a: int, denominator: nat): int {
    denominator * Weight(b, 0) / 2 - a
  }

  function WeightedEntry(g: Graph, b: seq<nat>, a: int, y: seq<int>, r: int, z: int, denominator: nat, i: nat, j: nat): int
    requires |y| == |b| == Size(g) && i <= Size(g) && j <= Size(g)
  {
    if i == 0 && j == 0 then CornerEntry(b, a, denominator)
    else if i == 0 then BorderEntry(b, r, denominator / 4, j - 1)
    else if j == 0 then BorderEntry(b, r, denominator / 4, i - 1)
    else BaseEntry(g, y, z, denominator / 4, i - 1, j - 1)
  }

  function WeightedSlack(g: Graph, b: seq<nat>, a: int, y: seq<int>, r: int, z: int, denominator: nat): (M: Matrix)
    requires |y| == |b| == Size(g)
    ensures Square(M) && |M| == Size(g) + 1
  {
    seq(Size(g) + 1, i requires 0 <= i <= Size(g) =>
      seq(Size(g) + 1, j requires 0 <= j <= Size(g) => WeightedEntry(g, b, a, y, r, z, denominator, i, j)))
  }

  lemma WeightedSymmetric(g: Graph, b: seq<nat>, a: int, y: seq<int>, r: int, z: int, denominator: nat)
    requires |y| == |b| == Size(g)
    ensures Symmetric(WeightedSlack(g, b, a, y, r, z, denominator))
  {
    var M := WeightedSlack(g, b, a, y, r, z, denominator);
    var B := Base(g, y, z, denominator / 4);
    BaseSymmetric(g, y, z, denominator / 4);
    forall i, j | 0 <= i < |M| && 0 <= j < |M| ensures M[i][j] == M[j][i] {
      if i > 0 && j > 0 {
        assert M[i][j] == B[i - 1][j - 1] == B[j - 1][i - 1];
      }
    }
  }

  /** Rows and columns from 1 on are those of the unweighted slack. */
  lemma {:induction false} InnerRowDot(M: Matrix, B: Matrix, x: seq<int>, i: nat, j: nat)
    requires Square(M) && Square(B) && |M| == |B| + 1 == |x| && i < |B|
    requires forall a, c :: 0 <= a < |B| && 0 <= c < |B| ==> M[a + 1][c + 1] == B[a][c]
    ensures RowDot(M, x, i + 1, j + 1) == RowDot(B, x[1..], i, j)
    decreases |B| - j
  {
    if j < |B| {
      InnerRowDot(M, B, x, i, j + 1);
      assert M[i + 1][j + 1] == B[i][j];
    }
  }

  lemma {:induction false} InnerRows(M: Matrix, B: Matrix, x: seq<int>, i: nat)
    requires Square(M) && Square(B) && |M| == |B| + 1 == |x|
    requires forall a, c :: 0 <= a < |B| && 0 <= c < |B| ==> M[a + 1][c + 1] == B[a][c]
    ensures Rows(M, x, i + 1, 1) == Rows(B, x[1..], i, 0)
    decreases |B| - i
  {
    if i < |B| {
      InnerRowDot(M, B, x, i, 0);
      InnerRows(M, B, x, i + 1);
    }
  }

  /** The first row against signs: twice the weight outside T, less half the linear term per sign. */
  lemma {:induction false} BorderRowDot(g: Graph, b: seq<nat>, a: int, y: seq<int>, r: int, z: int,
                                        denominator: nat, T: set<Vertex>, i: nat)
    requires |y| == |b| == Size(g) && T <= Vertices(g)
    ensures var x := [1] + Signs(T, Size(g));
            RowDot(WeightedSlack(g, b, a, y, r, z, denominator), x, 0, i + 1) ==
            (denominator / 4) * (2 * OutsideFrom(b, T, i) - Weight(b, i)) - Half(r) * SignSum(Signs(T, Size(g)), i)
    decreases Size(g) - i
  {
    var q, s, x := denominator / 4, Signs(T, Size(g)), [1] + Signs(T, Size(g));
    if i < Size(g) {
      BorderRowDot(g, b, a, y, r, z, denominator, T, i + 1);
      assert x[i + 1] == s[i];
      BorderArithmetic(q, b[i], Half(r), s[i], OutsideFrom(b, T, i + 1), Weight(b, i + 1), SignSum(s, i + 1));
    } else {
      assert q * 0 == 0 && Half(r) * 0 == 0;
    }
  }

  lemma BorderArithmetic(q: int, b: int, m: int, s: int, O: int, W: int, S: int)
    requires s == 1 || s == -1
    ensures (-q * b - m) * s + (q * (2 * O - W) - m * S)
            == q * (2 * ((if s == 1 then 0 else b) + O) - (b + W)) - m * (s + S)
  {
    assert m * (s + S) == m * s + m * S;
    if s == 1 {
      assert q * (2 * O - (b + W)) == q * (2 * O - W) - q * b;
    } else {
      assert q * (2 * (b + O) - (b + W)) == q * (2 * O - W) + q * b;
      assert (-q * b - m) * -1 == q * b + m;
      assert m * -1 == -m;
    }
  }

  lemma CornerOfSlack(g: Graph, b: seq<nat>, a: int, y: seq<int>, r: int, z: int, denominator: nat)
    requires |y| == |b| == Size(g)
    ensures WeightedSlack(g, b, a, y, r, z, denominator)[0][0] == denominator * Weight(b, 0) / 2 - a
  {
  }

  lemma InnerEntries(g: Graph, b: seq<nat>, a: int, y: seq<int>, r: int, z: int, denominator: nat)
    requires |y| == |b| == Size(g)
    ensures var M, B := WeightedSlack(g, b, a, y, r, z, denominator), Base(g, y, z, denominator / 4);
            forall i, j :: 0 <= i < |B| && 0 <= j < |B| ==> M[i + 1][j + 1] == B[i][j]
  {
  }

  lemma UnitHead(m: int, x: int, d: int, rest: int, total: int)
    requires x == 1 && total == m * x * x + 2 * x * d + rest
    ensures total == m + 2 * d + rest
  {
  }

  /** The form at (1, signs of T), for every linear numerator. */
  lemma WeightedForm(g: Graph, b: seq<nat>, a: int, y: seq<int>, r: int, z: int, denominator: nat,
                     T: set<Vertex>, h: int)
    requires |y| == |b| == Size(g) && T <= Vertices(g) && h == 2 * |T| - Size(g)
    requires denominator % 4 == 0
    ensures Form(WeightedSlack(g, b, a, y, r, z, denominator), [1] + Signs(T, Size(g)), 0) ==
            denominator * WeightedValue(g, b, T) - a - 2 * (Half(r) * h) - Total(y, 0) - z * (h * h)
  {
    hide WeightedSlack, Base, Form, RowDot, Rows, Signs, SignSum, OutsideFrom, Weight, Total, Cut, Symmetric;
    var M, s := WeightedSlack(g, b, a, y, r, z, denominator), Signs(T, Size(g));
    var x, q := [1] + s, denominator / 4;
    WeightedSymmetric(g, b, a, y, r, z, denominator);
    FormStep(M, x, 0);
    UnitHead(M[0][0], x[0], RowDot(M, x, 0, 1), Form(M, x, 1), Form(M, x, 0));
    CornerOfSlack(g, b, a, y, r, z, denominator);
    BorderRowDot(g, b, a, y, r, z, denominator, T, 0);
    SignTotal(g, T);
    assert x[1..] == s;
    InnerEntries(g, b, a, y, r, z, denominator);
    InnerForm(M, Base(g, y, z, q), x);
    BaseForm(g, y, z, q, T, h);
    FinalArithmetic(denominator, q, Weight(b, 0), OutsideFrom(b, T, 0), Cut(g, T));
    assert SignSum(s, 0) == h;
  }

  lemma InnerForm(M: Matrix, B: Matrix, x: seq<int>)
    requires Square(M) && Square(B) && |M| == |B| + 1 == |x|
    requires forall a, c :: 0 <= a < |B| && 0 <= c < |B| ==> M[a + 1][c + 1] == B[a][c]
    ensures Form(M, x, 1) == Form(B, x[1..], 0)
  {
    InnerRows(M, B, x, 0);
  }

  lemma FinalArithmetic(D: nat, q: nat, W: nat, O: nat, C: nat)
    requires D == 4 * q
    ensures D * W / 2 + 2 * (q * (2 * O - W)) + 4 * q * C == D * (C + O)
  {
    assert D * W == 2 * (2 * (q * W));
    assert D * W / 2 == 2 * (q * W);
    assert q * (2 * O - W) == 2 * (q * O) - q * W;
    assert D * (C + O) == 4 * (q * C) + 4 * (q * O);
  }

  // ----- acceptance -----

  ghost function ObjectiveAt(a: int, y: seq<int>, r: int, z: int, repairs: seq<int>, h: int): int {
    a + r * h + z * (h * h) + Total(y, 0) - Total(repairs, 0)
  }

  ghost function WeightedObjective(c: WeightedCertificate): int {
    ObjectiveAt(c.constant, c.y, c.linear, c.squared, c.repairs, 2 * c.cardinality - c.vertexCount)
  }

  ghost predicate WeightedShape(g: Graph, b: seq<nat>, hash: nat, c: WeightedCertificate) {
    && c.bound.Some? && Size(g) != 0 && c.vertexCount == Size(g) && |b| == Size(g)
    && c.modelHash == hash
    && 0 < c.cardinality < Size(g)
    && 2 <= c.fractionalBits <= 50
    && |c.y| == Size(g) && |c.repairs| == Size(g) + 1
    && c.denominator == Pow2(c.fractionalBits)
    && (forall i :: 0 <= i < |c.repairs| ==> c.repairs[i] >= 0)
  }

  /** `hash` is the hash of the model (g, b); only its equality with the recorded one matters. */
  ghost predicate WeightedAccepts(g: Graph, b: seq<nat>, hash: nat, c: WeightedCertificate) {
    && WeightedShape(g, b, hash, c)
    && var M := WeightedSlack(g, b, c.constant, c.y, c.linear, c.squared, c.denominator);
    && Proved(M, c.repairs, c.proofKind)
    && c.objective == WeightedObjective(c)
    && NonnegativeCeiling(c.objective, c.denominator) == c.bound
  }

  /** The bound of the certificate holds for every vertex set of its cardinality. */
  ghost predicate BoundHolds(g: Graph, b: seq<nat>, c: WeightedCertificate) {
    c.bound.Some? &&
    forall T: set<Vertex> :: T <= Vertices(g) && |T| == c.cardinality ==> WeightedValue(g, b, T) >= c.bound.value
  }

  /** What an accepted certificate proves, whatever the parity of its linear numerator. */
  lemma WeightedInequality(g: Graph, b: seq<nat>, hash: nat, c: WeightedCertificate, T: set<Vertex>, h: int)
    requires WeightedAccepts(g, b, hash, c)
    requires T <= Vertices(g) && |T| == c.cardinality && h == 2 * |T| - Size(g)
    ensures c.denominator * WeightedValue(g, b, T) >= c.objective - (c.linear * h - 2 * (Half(c.linear) * h))
  {
    var M := WeightedSlack(g, b, c.constant, c.y, c.linear, c.squared, c.denominator);
    var x := [1] + Signs(T, Size(g));
    WeightedSymmetric(g, b, c.constant, c.y, c.linear, c.squared, c.denominator);
    WeightedForm(g, b, c.constant, c.y, c.linear, c.squared, c.denominator, T, h);
    ProvedLower(M, c.repairs, c.proofKind, x);
  }

  /** Soundness with an even linear numerator. */
  lemma WeightedCertificateSound(g: Graph, b: seq<nat>, hash: nat, c: WeightedCertificate)
    requires WeightedAccepts(g, b, hash, c) && c.linear % 2 == 0
    ensures BoundHolds(g, b, c)
  {
    hide WeightedSlack, Proved, WeightedValue, NonnegativeCeiling, WeightedObjective;
    forall T: set<Vertex> | T <= Vertices(g) && |T| == c.cardinality
      ensures WeightedValue(g, b, T) >= c.bound.value
    {
      var h := 2 * |T| - Size(g);
      WeightedInequality(g, b, hash, c, T, h);
      assert 2 * (Half(c.linear) * h) == (2 * Half(c.linear)) * h == c.linear * h;
      CeilingIsLeast(c.objective, c.denominator, WeightedValue(g, b, T));
    }
  }

  // ----- an odd linear numerator is never safe -----

  /** Every accepted certificate with linear numerator r has a bound that holds. */
  ghost predicate SoundForLinear(r: int) {
    forall g: Graph, b: seq<nat>, hash: nat, c: WeightedCertificate ::
      WeightedAccepts(g, b, hash, c) && c.linear == r ==> BoundHolds(g, b, c)
  }

  /** The checker is sound at a linear numerator exactly when that numerator is even. */
  lemma SoundIffEven(r: int)
    ensures SoundForLinear(r) <==> r % 2 == 0
  {
    if r % 2 == 0 {
      forall g: Graph, b: seq<nat>, hash: nat, c: WeightedCertificate | WeightedAccepts(g, b, hash, c) && c.linear == r
        ensures BoundHolds(g, b, c)
      {
        WeightedCertificateSound(g, b, hash, c);
      }
    } else {
      var t := Abs(Half(r));
      OddAccepted(r, t);
      OddBoundFails(r, t);
      assert WeightedAccepts(EdgelessGraph(4 * t + 3), Zeros(4 * t + 3), 0, OddCertificate(r, t));
    }
  }

  function EdgelessGraph(n: nat): (g: Graph)
    ensures Size(g) == n && forall v :: Neighbours(g, v) == {}
  {
    var a := Adjacency(seq(n, _ => {}));
    assert a.Simple();
    a
  }

  function Zeros(n: nat): (b: seq<nat>)
    ensures |b| == n && forall i :: 0 <= i < n ==> b[i] == 0
  {
    seq(n, _ => 0)
  }

  /** An edgeless graph of 4t + 3 vertices whose true value is 0 but whose certified bound is 1. */
  function OddCertificate(r: int, t: nat): WeightedCertificate {
    var n := 4 * t + 3;
    WeightedCertificate(true, 0, n, if r > 0 then n - 1 else 1, 2, RowwiseDiagonalDominance,
                        -(n * t), Constant(n, 0 - t), r, 0, Constant(n + 1, 0), 1, 4, Some(1))
  }

  lemma {:induction false} ConstantTotal(n: nat, value: int, i: nat)
    requires i <= n
    ensures Total(Constant(n, value), i) == (n - i) * value
    decreases n - i
  {
    if i < n {
      ConstantTotal(n, value, i + 1);
      assert (n - i) * value == (n - i - 1) * value + value;
    }
  }

  lemma {:induction false} ZeroWeight(n: nat, T: set<Vertex>, i: nat)
    ensures Weight(Zeros(n), i) == OutsideFrom(Zeros(n), T, i) == 0
    decreases n - i
  {
    if i < n {
      ZeroWeight(n, T, i + 1);
    }
  }

  /** The slack of the odd certificate: n t and t on the diagonal, entries of size t in the border. */
  ghost function OddSlack(r: int, t: nat): Matrix {
    var n := 4 * t + 3;
    WeightedSlack(EdgelessGraph(n), Zeros(n), -(n * t), Constant(n, 0 - t), r, 0, 4)
  }

  lemma OddSlackEntries(r: int, t: nat)
    requires r % 2 != 0 && t == Abs(Half(r))
    ensures var M, n := OddSlack(r, t), 4 * t + 3;
            && Square(M) && |M| == n + 1 && M[0][0] == n * t
            && (forall i :: 1 <= i <= n ==> M[i][i] == t && Abs(M[0][i]) == t && Abs(M[i][0]) == t)
            && (forall i, j :: 1 <= i <= n && 1 <= j <= n && i != j ==> M[i][j] == 0)
  {
    var n := 4 * t + 3;
    var g, b, M := EdgelessGraph(n), Zeros(n), OddSlack(r, t);
    ZeroWeight(n, {}, 0);
    assert M[0][0] == CornerEntry(b, -(n * t), 4) == n * t;
    forall i | 1 <= i <= n ensures M[i][i] == t && Abs(M[0][i]) == t && Abs(M[i][0]) == t {
      assert M[i][i] == BaseEntry(g, Constant(n, 0 - t), 0, 1, i - 1, i - 1);
      assert M[0][i] == BorderEntry(b, r, 1, i - 1) == M[i][0];
      assert b[i - 1] == 0;
    }
    forall i, j | 1 <= i <= n && 1 <= j <= n && i != j ensures M[i][j] == 0 {
      assert M[i][j] == BaseEntry(g, Constant(n, 0 - t), 0, 1, i - 1, j - 1);
    }
  }

  lemma {:induction false} BorderOffDiagonal(M: Matrix, t: nat, j: nat)
    requires Square(M) && 1 <= j <= |M|
    requires forall i :: 1 <= i < |M| ==> Abs(M[0][i]) == t
    ensures OffDiagonal(M, 0, j) == (|M| - j) * t
    decreases |M| - j
  {
    if j < |M| {
      BorderOffDiagonal(M, t, j + 1);
      assert (|M| - j) * t == (|M| - j - 1) * t + t;
    }
  }

  lemma {:induction false} InnerOffDiagonal(M: Matrix, i: nat, j: nat)
    requires Square(M) && 1 <= j && 1 <= i < |M|
    requires forall c :: 1 <= c < |M| && c != i ==> M[i][c] == 0
    ensures OffDiagonal(M, i, j) == 0
    decreases |M| - j
  {
    if j < |M| {
      InnerOffDiagonal(M, i, j + 1);
    }
  }

  lemma OddProved(r: int, t: nat)
    requires r % 2 != 0 && t == Abs(Half(r))
    ensures Square(OddSlack(r, t)) && |OddSlack(r, t)| == 4 * t + 4
    ensures Proved(OddSlack(r, t), Constant(4 * t + 4, 0), RowwiseDiagonalDominance)
  {
    OddSlackEntries(r, t);
    var M := OddSlack(r, t);
    forall i | 0 <= i < |M| ensures Margin(M, i) >= 0 {
      if i == 0 {
        BorderOffDiagonal(M, t, 1);
      } else {
        InnerOffDiagonal(M, i, 1);
      }
    }
  }

  lemma OddAccepted(r: int, t: nat)
    requires r % 2 != 0 && t == Abs(Half(r))
    ensures WeightedAccepts(EdgelessGraph(4 * t + 3), Zeros(4 * t + 3), 0, OddCertificate(r, t))
  {
    hide WeightedSlack, Proved, EdgelessGraph, Zeros, Constant;
    var n, c := 4 * t + 3, OddCertificate(r, t);
    OddProved(r, t);
    ConstantTotal(n, 0 - t, 0);
    ConstantTotal(n + 1, 0, 0);
    var h := 2 * c.cardinality - n;
    OddArithmetic(r, t, n, h);
    assert 0 * (h * h) == 0;
    assert Pow2(2) == 4;
  }

  lemma OddArithmetic(r: int, t: nat, n: nat, h: int)
    requires r % 2 != 0 && t == Abs(Half(r)) && n == 4 * t + 3
    requires h == if r > 0 then n - 2 else 2 - n
    ensures -(n * t) + r * h + n * (0 - t) == 1
  {
    var u, v := 2 * t + 1, 4 * t + 1;
    assert r * h == u * v by {
      if r > 0 {
        assert r == u && h == v;
      } else {
        assert r == -u && h == -v;
      }
    }
    assert n * (0 - t) == -(n * t);
    assert n * t == 4 * (t * t) + 3 * t;
    assert u * v == 8 * (t * t) + 6 * t + 1;
  }

  lemma OddBoundFails(r: int, t: nat)
    ensures !BoundHolds(EdgelessGraph(4 * t + 3), Zeros(4 * t + 3), OddCertificate(r, t))
  {
    var n, c := 4 * t + 3, OddCertificate(r, t);
    var g, T := EdgelessGraph(n), Below(c.cardinality);
    ZeroWeight(n, T, 0);
    assert Boundary(g, T) == {};
    assert WeightedValue(g, Zeros(n), T) == 0;
    assert T <= Vertices(g);
  }

  // ----- the checker -----

  method SumBoundary(b: seq<nat>) returns (sum: nat)
    ensures sum == Weight(b, 0)
  {
    sum := 0;
    for i := 0 to |b|
      invariant sum + Weight(b, i) == Weight(b, 0)
    {
      sum := sum + b[i];
    }
  }

  /** Rows and columns 1 to i of the matrix, and its corner, are those of W. */
  ghost predicate BuiltTo(matrix: Matrix, W: Matrix, i: nat)
    requires Square(W)
  {
    && Square(matrix) && |matrix| == |W|
    && forall p, q :: 0 <= p < |W| && 0 <= q < |W| && (0 < p <= i || 0 < q <= i || p == q == 0) ==>
         matrix[p][q] == W[p][q]
  }

  /** Rows and columns below r are built, and row and column r agree with W up to j. */
  ghost predicate RowBuiltTo(matrix: Matrix, W: Matrix, r: nat, j: nat)
    requires Square(W) && 0 < r < |W|
  {
    && BuiltTo(matrix, W, r - 1) && j < |W|
    && (forall q :: 0 <= q <= j ==> matrix[r][q] == W[r][q])
    && (forall q :: 0 <= q <= j ==> matrix[q][r] == W[q][r])
  }

  function EdgeEntry(g: Graph, z: int, quarter: int, i: nat, c: nat): int {
    if Adjacent(g, i, c) then -z - quarter else -z
  }

  /** Writes row and column i + 1 from the diagonal on. */
  method FillRow(g: Graph, built: Matrix, ghost W: Matrix, i: nat, border: int, diagonal: int, z: int, quarter: int)
    returns (matrix: Matrix)
    requires Symmetric(W) && |W| == Size(g) + 1 && i < Size(g) && BuiltTo(built, W, i)
    requires W[0][i + 1] == border && W[i + 1][i + 1] == diagonal
    requires forall c :: i < c < Size(g) ==> W[i + 1][c + 1] == EdgeEntry(g, z, quarter, i, c)
    ensures BuiltTo(matrix, W, i + 1)
  {
    matrix := built[0 := built[0][i + 1 := border]];
    matrix := matrix[i + 1 := matrix[i + 1][0 := border]];
    matrix := matrix[i + 1 := matrix[i + 1][i + 1 := diagonal]];
    for j := i + 1 to Size(g)
      invariant RowBuiltTo(matrix, W, i + 1, j)
    {
      var entry := -z;
      if Adjacent(g, i, j) {
        entry := entry - quarter;
      }
      assert EdgeEntry(g, z, quarter, i, j) == entry;
      assert W[i + 1][j + 1] == entry == W[j + 1][i + 1];
      matrix := matrix[i + 1 := matrix[i + 1][j + 1 := entry]];
      matrix := matrix[j + 1 := matrix[j + 1][i + 1 := entry]];
    }
  }

  lemma WeightedRowEntries(g: Graph, b: seq<nat>, a: int, y: seq<int>, r: int, z: int, denominator: nat, i: nat)
    requires |y| == |b| == Size(g) && i < Size(g)
    ensures var W, quarter := WeightedSlack(g, b, a, y, r, z, denominator), denominator / 4;
            && W[0][i + 1] == -quarter * b[i] - Half(r)
            && W[i + 1][i + 1] == quarter * Degree(g, i) - y[i] - z
            && forall c :: i < c < Size(g) ==> W[i + 1][c + 1] == EdgeEntry(g, z, quarter, i, c)
  {
    var W := WeightedSlack(g, b, a, y, r, z, denominator);
    assert W[i + 1][i + 1] == BaseEntry(g, y, z, denominator / 4, i, i);
  }

  method BuildWeightedSlack(g: Graph, b: seq<nat>, a: int, y: seq<int>, r: int, z: int, denominator: nat)
    returns (matrix: Matrix)
    requires |y| == |b| == Size(g)
    ensures matrix == WeightedSlack(g, b, a, y, r, z, denominator)
  {
    var n := Size(g);
    var quarter := denominator / 4;
    ghost var W := WeightedSlack(g, b, a, y, r, z, denominator);
    WeightedSymmetric(g, b, a, y, r, z, denominator);
    matrix := seq(n + 1, _ => seq(n + 1, _ => 0));
    var boundarySum := SumBoundary(b);
    matrix := matrix[0 := matrix[0][0 := denominator * boundarySum / 2 - a]];
    for i := 0 to n
      invariant BuiltTo(matrix, W, i)
    {
      WeightedRowEntries(g, b, a, y, r, z, denominator, i);
      matrix := FillRow(g, matrix, W, i, -quarter * b[i] - Half(r), quarter * Degree(g, i) - y[i] - z, z, quarter);
    }
    SameMatrix(matrix, W);
  }

  lemma SameMatrix(A: Matrix, B: Matrix)
    requires Square(A) && Square(B) && |A| == |B|
    requires forall p, q :: 0 <= p < |A| && 0 <= q < |A| ==> A[p][q] == B[p][q]
    ensures A == B
  {
    forall p | 0 <= p < |A| ensures A[p] == B[p] {
    }
  }

  method ComputeWeightedObjective(a: int, y: seq<int>, r: int, z: int, repairs: seq<int>, h: int)
    returns (objective: int)
    ensures objective == ObjectiveAt(a, y, r, z, repairs, h)
  {
    objective := a + r * h + z * (h * h);
    for i := 0 to |y|
      invariant objective == a + r * h + z * (h * h) + Total(y, 0) - Total(y, i)
    {
      objective := objective + y[i];
    }
    for i := 0 to |repairs|
      invariant objective == a + r * h + z * (h * h) + Total(y, 0) - (Total(repairs, 0) - Total(repairs, i))
    {
      objective := objective - repairs[i];
    }
  }

  method VerifyWeighted(g: Graph, b: seq<nat>, hash: nat, c: WeightedCertificate) returns (ok: bool)
    ensures ok <==> WeightedAccepts(g, b, hash, c)
  {
    if c.bound.None? || Size(g) == 0 || c.vertexCount != Size(g) || |b| != Size(g) || c.modelHash != hash ||
       c.cardinality == 0 || c.cardinality >= Size(g) || c.fractionalBits < 2 || c.fractionalBits > 50 ||
       |c.y| != Size(g) || |c.repairs| != Size(g) + 1 || c.denominator != Pow2(c.fractionalBits) {
      return false;
    }
    for i := 0 to |c.repairs|
      invariant forall k :: 0 <= k < i ==> c.repairs[k] >= 0
    {
      if c.repairs[i] < 0 {
        return false;
      }
    }
    var M := BuildWeightedSlack(g, b, c.constant, c.y, c.linear, c.squared, c.denominator);
    var proved;
    match c.proofKind {
      case RowwiseDiagonalDominance => proved := CheckRows(M, c.repairs);
      case ExactShiftedBareiss => proved := CheckShift(M, c.repairs);
    }
    if !proved {
      return false;
    }
    var objective := ComputeWeightedObjective(c.constant, c.y, c.linear, c.squared, c.repairs,
                                              2 * c.cardinality - Size(g));
    if objective != c.objective {
      return false;
    }
    return NonnegativeCeiling(objective, c.denominator) == c.bound;
  }

  ghost predicate UsableWeighted(g: Graph, b: seq<nat>, cardinality: nat, a: Option<int>, y: seq<Option<int>>,
                                 halfR: Option<int>, z: Option<int>, bits: nat)
  {
    && Size(g) != 0 && 0 < cardinality < Size(g) && |b| == |y| == Size(g) && 2 <= bits <= 50
    && a.Some? && halfR.Some? && z.Some? && forall i :: 0 <= i < |y| ==> y[i].Some?
  }

  lemma ObjectiveFormula(a: int, y: seq<int>, r: int, z: int, repairs: seq<int>, h: int)
    ensures ObjectiveAt(a, y, r, z, repairs, h) == a + r * h + z * (h * h) + Total(y, 0) - Total(repairs, 0)
  {
  }

  /** The certificate holds the multipliers it was made from; the linear one is doubled. */
  ghost predicate CarriesWeighted(c: WeightedCertificate, a: Option<int>, y: seq<Option<int>>, halfR: Option<int>,
                                  z: Option<int>)
  {
    && a == Some(c.constant) && z == Some(c.squared) && halfR.Some? && c.linear == 2 * halfR.value
    && |c.y| == |y| && forall i :: 0 <= i < |y| ==> y[i] == Some(c.y[i])
  }

  /**
    The linear multiplier arrives on the next coarser grid and is doubled, so a
    recovered certificate has an even linear numerator and its bound holds.
   */
  method RecoverWeighted(g: Graph, b: seq<nat>, hash: nat, cardinality: nat, a: Option<int>, y: seq<Option<int>>,
                         halfR: Option<int>, z: Option<int>, bits: nat) returns (c: WeightedCertificate)
    ensures c.valid ==> WeightedAccepts(g, b, hash, c)
    ensures c.valid ==> BoundHolds(g, b, c)
    ensures c.modelHash == hash && c.vertexCount == Size(g) && c.cardinality == cardinality && c.fractionalBits == bits
    ensures UsableWeighted(g, b, cardinality, a, y, halfR, z, bits) ==>
              && CarriesWeighted(c, a, y, halfR, z)
              && c.denominator == Pow2(bits) && c.bound == NonnegativeCeiling(c.objective, Pow2(bits))
              && c.objective == c.constant + c.linear * (2 * cardinality - Size(g))
                                + c.squared * ((2 * cardinality - Size(g)) * (2 * cardinality - Size(g)))
                                + Total(c.y, 0) - Total(c.repairs, 0)
              && LeastRepairs(WeightedSlack(g, b, c.constant, c.y, c.linear, c.squared, c.denominator),
                              c.repairs, c.proofKind)
    ensures c.valid <==> UsableWeighted(g, b, cardinality, a, y, halfR, z, bits)
                         && NonnegativeCeiling(c.objective, Pow2(bits)).Some?
  {
    hide BoundHolds, LeastRepairs, Proved, Symmetric, Total, WeightedSlack, NonnegativeCeiling, Pow2, ObjectiveAt;
    c := WeightedCertificate(false, hash, Size(g), cardinality, bits, RowwiseDiagonalDominance, 0, [], 0, 0, [], 0, 1, None);
    if Size(g) == 0 || cardinality == 0 || cardinality >= Size(g) || |b| != Size(g) || |y| != Size(g) ||
       bits < 2 || bits > 50 || a.None? || halfR.None? || z.None? {
      return;
    }
    var exact := QuantiseAll(y);
    if exact.None? {
      return;
    }
    var linear := halfR.value * 2;
    var slack := BuildWeightedSlack(g, b, a.value, exact.value, linear, z.value, Pow2(bits));
    WeightedSymmetric(g, b, a.value, exact.value, linear, z.value, Pow2(bits));
    var repairs, kind := ChooseRepairs(slack);
    var objective := ComputeWeightedObjective(a.value, exact.value, linear, z.value, repairs, 2 * cardinality - Size(g));
    ObjectiveFormula(a.value, exact.value, linear, z.value, repairs, 2 * cardinality - Size(g));
    var bound := NonnegativeCeiling(objective, Pow2(bits));
    c := WeightedCertificate(false, hash, Size(g), cardinality, bits, kind, a.value, exact.value, linear, z.value,
                             repairs, objective, Pow2(bits), bound);
    if bound.Some? {
      var ok := VerifyWeighted(g, b, hash, c);
      if ok {
        c := c.(valid := true);
        WeightedCertificateSound(g, b, hash, c);
      }
    }
  }

  /** Multipliers that are all zero certify the bound zero here as well. */
  method TrivialWeighted(g: Graph, b: seq<nat>, hash: nat, cardinality: nat, bits: nat) returns (c: WeightedCertificate)
    requires 0 < cardinality < Size(g) && |b| == Size(g) && 2 <= bits <= 50
    ensures c.valid && c.bound == Some(0) && c.constant == c.linear == c.squared == 0
  {
    hide LeastRepairs, Total, WeightedSlack, WeightedAccepts, BoundHolds;
    c := RecoverWeighted(g, b, hash, cardinality, Some(0), seq(Size(g), _ => Some(0)), Some(0), Some(0), bits);
    RepairsAreNonnegative(WeightedSlack(g, b, c.constant, c.y, c.linear, c.squared, c.denominator), c.repairs, c.proofKind);
    TotalSign(c.repairs, 0);
    TotalZero(c.y, 0);
    NoDuals(c.linear, c.squared, 2 * cardinality - Size(g));
    assert c.objective <= 0;
  }

  lemma NoDuals(r: int, z: int, h: int)
    requires r == z == 0
    ensures r * h == 0 && z * (h * h) == 0
  {
  }
}
