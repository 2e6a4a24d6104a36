/**
  The cut of a vertex set as a quadratic form in the signs of the vertices:
  with x = +1 on T and -1 elsewhere, x'Lx is four times the cut of T.
 */
module CutForms {
  import opened Graphs
  import opened QuadraticForms

  function SignOf(T: set<Vertex>, v: Vertex): int {
    if v in T then 1 else -1
  }

  function Signs(T: set<Vertex>, n: nat): (x: seq<int>)
    ensures |x| == n && forall i :: 0 <= i < n ==> x[i] == SignOf(T, i)
  {
    seq(n, i requires i >= 0 => SignOf(T, i))
  }

  /** The members of X that are at least j. */
  ghost function From(X: set<Vertex>, j: nat): set<Vertex> {
    set v | v in X && v >= j
  }

  lemma FromStep(X: set<Vertex>, j: nat)
    ensures |From(X, j)| == |From(X, j + 1)| + if j in X then 1 else 0
  {
    if j in X {
      assert From(X, j) == From(X, j + 1) + {j};
    } else {
      assert From(X, j) == From(X, j + 1);
    }
  }

  lemma FromEnd(g: Graph, X: set<Vertex>)
    requires X <= Vertices(g)
    ensures From(X, Size(g)) == {} && From(X, 0) == X
  {
  }

  // ----- the cut as a sum over vertices -----

  /** sum over v >= i of the edges at v that leave T, for v in T */
  ghost function CutSum(g: Graph, T: set<Vertex>, i: nat): nat
    decreases Size(g) - i
  {
    if i >= Size(g) then 0 else (if i in T then |Neighbours(g, i) - T| else 0) + CutSum(g, T, i + 1)
  }

  ghost function BoundaryFrom(g: Graph, T: set<Vertex>, i: nat): set<(Vertex, Vertex)> {
    set e | e in Boundary(g, T) && e.0 >= i
  }

  lemma BoundaryFromMember(g: Graph, T: set<Vertex>, i: nat, e: (Vertex, Vertex))
    ensures e in BoundaryFrom(g, T, i) <==>
      e in BoundaryFrom(g, T, i + 1) || (i in T && e in OutOf(Neighbours(g, i) - T, i))
    ensures e in BoundaryFrom(g, T, i + 1) ==> e !in OutOf(Neighbours(g, i) - T, i)
  {
    assert e == (e.0, e.1);
  }

  lemma BoundaryFromStep(g: Graph, T: set<Vertex>, i: nat)
    ensures |BoundaryFrom(g, T, i)| == |BoundaryFrom(g, T, i + 1)| + if i in T then |Neighbours(g, i) - T| else 0
  {
    hide BoundaryFrom, OutOf, Neighbours;
    var rest, out := BoundaryFrom(g, T, i + 1), OutOf(Neighbours(g, i) - T, i);
    forall e ensures e in BoundaryFrom(g, T, i) <==> e in rest || (i in T && e in out) {
      BoundaryFromMember(g, T, i, e);
    }
    if i in T {
      TaggedSize(Neighbours(g, i) - T, i);
      forall e | e in rest ensures e !in out {
        BoundaryFromMember(g, T, i, e);
      }
      assert BoundaryFrom(g, T, i) == rest + out;
    } else {
      assert BoundaryFrom(g, T, i) == rest;
    }
  }

  lemma {:induction false} CutSumCounts(g: Graph, T: set<Vertex>, i: nat)
    requires T <= Vertices(g)
    ensures CutSum(g, T, i) == |BoundaryFrom(g, T, i)|
    decreases Size(g) - i
  {
    if i >= Size(g) {
      assert BoundaryFrom(g, T, i) == {};
    } else {
      CutSumCounts(g, T, i + 1);
      BoundaryFromStep(g, T, i);
    }
  }

  lemma CutIsSum(g: Graph, T: set<Vertex>)
    requires T <= Vertices(g)
    ensures CutSum(g, T, 0) == Cut(g, T)
  {
    CutSumCounts(g, T, 0);
    assert BoundaryFrom(g, T, 0) == Boundary(g, T);
  }

  ghost function Flip(E: set<(Vertex, Vertex)>): set<(Vertex, Vertex)> {
    set e | e in E :: (e.1, e.0)
  }

  lemma {:induction false} FlipSize(E: set<(Vertex, Vertex)>)
    ensures |Flip(E)| == |E|
    decreases E
  {
    if E != {} {
      var e :| e in E;
      FlipSize(E - {e});
      assert Flip(E) == Flip(E - {e}) + {(e.1, e.0)};
    }
  }

  /** A set and its complement have the same cut. */
  lemma ComplementCut(g: Graph, T: set<Vertex>)
    requires T <= Vertices(g)
    ensures Cut(g, Vertices(g) - T) == Cut(g, T)
  {
    var A, B := Boundary(g, T), Boundary(g, Vertices(g) - T);
    forall u, v | v in Neighbours(g, u) ensures u in Neighbours(g, v) && u in Vertices(g) && v in Vertices(g) {
      NeighbourFacts(g, u, v);
    }
    assert B == Flip(A);
    FlipSize(A);
  }

  // ----- sums of signs -----

  ghost function SignSum(x: seq<int>, j: nat): int
    decreases |x| - j
  {
    if j >= |x| then 0 else x[j] + SignSum(x, j + 1)
  }

  lemma {:induction false} SignSumCounts(g: Graph, T: set<Vertex>, j: nat)
    requires T <= Vertices(g) && j <= Size(g)
    ensures SignSum(Signs(T, Size(g)), j) == 2 * |From(T, j)| - (Size(g) - j)
    decreases Size(g) - j
  {
    if j < Size(g) {
      SignSumCounts(g, T, j + 1);
      FromStep(T, j);
    } else {
      FromEnd(g, T);
    }
  }

  lemma SignTotal(g: Graph, T: set<Vertex>)
    requires T <= Vertices(g)
    ensures SignSum(Signs(T, Size(g)), 0) == 2 * |T| - Size(g)
  {
    SignSumCounts(g, T, 0);
    FromEnd(g, T);
  }

  /** sum of x[c] over the neighbours c >= j of i */
  ghost function NeighbourSum(g: Graph, x: seq<int>, i: nat, j: nat): int
    requires |x| == Size(g)
    decreases |x| - j
  {
    if j >= |x| then 0 else (if j in Neighbours(g, i) then x[j] else 0) + NeighbourSum(g, x, i, j + 1)
  }

  lemma {:induction false} NeighbourSumCounts(g: Graph, T: set<Vertex>, i: nat, j: nat)
    requires T <= Vertices(g) && i < Size(g) && j <= Size(g)
    ensures NeighbourSum(g, Signs(T, Size(g)), i, j)
            == |From(Neighbours(g, i) * T, j)| - |From(Neighbours(g, i) - T, j)|
    decreases Size(g) - j
  {
    var N := Neighbours(g, i);
    if j < Size(g) {
      NeighbourSumCounts(g, T, i, j + 1);
      FromStep(N * T, j);
      FromStep(N - T, j);
    } else {
      forall v | v in N ensures v in Vertices(g) { NeighbourFacts(g, i, v); }
      FromEnd(g, N * T);
      FromEnd(g, N - T);
    }
  }

  /** The neighbours of i on the other side of T. */
  ghost function Crossing(g: Graph, T: set<Vertex>, i: Vertex): nat {
    if i in T then |Neighbours(g, i) - T| else |Neighbours(g, i) * T|
  }

  lemma SignedDegree(g: Graph, T: set<Vertex>, i: nat)
    requires T <= Vertices(g) && i < Size(g)
    ensures SignOf(T, i) * (Degree(g, i) * SignOf(T, i) - NeighbourSum(g, Signs(T, Size(g)), i, 0))
            == 2 * Crossing(g, T, i)
  {
    var N := Neighbours(g, i);
    NeighbourSumCounts(g, T, i, 0);
    forall v | v in N ensures v in Vertices(g) { NeighbourFacts(g, i, v); }
    FromEnd(g, N * T);
    FromEnd(g, N - T);
    assert N == (N * T) + (N - T) && (N * T) !! (N - T);
  }

  ghost function CrossingSum(g: Graph, T: set<Vertex>, i: nat): nat
    decreases Size(g) - i
  {
    if i >= Size(g) then 0 else Crossing(g, T, i) + CrossingSum(g, T, i + 1)
  }

  lemma {:induction false} CrossingSplits(g: Graph, T: set<Vertex>, i: nat)
    requires T <= Vertices(g)
    ensures CrossingSum(g, T, i) == CutSum(g, T, i) + CutSum(g, Vertices(g) - T, i)
    decreases Size(g) - i
  {
    if i < Size(g) {
      CrossingSplits(g, T, i + 1);
      var N := Neighbours(g, i);
      forall v | v in N ensures v in Vertices(g) { NeighbourFacts(g, i, v); }
      assert N - (Vertices(g) - T) == N * T;
    }
  }

  lemma CrossingTotal(g: Graph, T: set<Vertex>)
    requires T <= Vertices(g)
    ensures CrossingSum(g, T, 0) == 2 * Cut(g, T)
  {
    CrossingSplits(g, T, 0);
    CutIsSum(g, T);
    CutIsSum(g, Vertices(g) - T);
    ComplementCut(g, T);
  }

  // ----- the slack matrix of a bisection dual -----

  /** quarter * L - diag(y) - z * ones, where L is the Laplacian of g */
  function BaseEntry(g: Graph, y: seq<int>, z: int, quarter: int, i: nat, j: nat): int
    requires |y| == Size(g) && i < Size(g)
  {
    if i == j then quarter * Degree(g, i) - y[i] - z
    else if Adjacent(g, i, j) then -z - quarter else -z
  }

  function Base(g: Graph, y: seq<int>, z: int, quarter: int): (M: Matrix)
    requires |y| == Size(g)
    ensures Square(M) && |M| == Size(g)
  {
    seq(Size(g), i requires 0 <= i < Size(g) =>
      seq(Size(g), j requires 0 <= j < Size(g) => BaseEntry(g, y, z, quarter, i, j)))
  }

  lemma BaseSymmetric(g: Graph, y: seq<int>, z: int, quarter: int)
    requires |y| == Size(g)
    ensures Symmetric(Base(g, y, z, quarter))
  {
    var M := Base(g, y, z, quarter);
    forall i, j | 0 <= i < |M| && 0 <= j < |M| ensures M[i][j] == M[j][i] {
      if Adjacent(g, i, j) { NeighbourFacts(g, i, j); }
      if Adjacent(g, j, i) { NeighbourFacts(g, j, i); }
    }
  }

  lemma EntryArithmetic(p: int, w: int, q: int, z: int, a: int, D: int, N: int, S: int)
    ensures (p - w * q - z) * a + (D - q * N - z * S) == (p * a + D) - q * (w * a + N) - z * (a + S)
  {
    assert q * (w * a + N) == (w * q) * a + q * N;
    assert z * (a + S) == z * a + z * S;
    assert (p - w * q - z) * a == p * a - (w * q) * a - z * a;
  }

  ghost function DiagonalWeight(g: Graph, y: seq<int>, quarter: int, i: nat): int
    requires |y| == Size(g) && i < Size(g)
  {
    quarter * Degree(g, i) - y[i]
  }

  lemma {:induction false} BaseRowDot(g: Graph, y: seq<int>, z: int, quarter: int, x: seq<int>, i: nat, j: nat)
    requires |y| == |x| == Size(g) && i < Size(g)
    ensures RowDot(Base(g, y, z, quarter), x, i, j) ==
            (if j <= i then DiagonalWeight(g, y, quarter, i) * x[i] else 0)
            - quarter * NeighbourSum(g, x, i, j) - z * SignSum(x, j)
    decreases Size(g) - j
  {
    var M := Base(g, y, z, quarter);
    if j < Size(g) {
      BaseRowDot(g, y, z, quarter, x, i, j + 1);
      var p, w := if i == j then DiagonalWeight(g, y, quarter, i) else 0, if Adjacent(g, i, j) then 1 else 0;
      if Adjacent(g, i, j) { NeighbourFacts(g, i, j); }
      assert M[i][j] == p - w * quarter - z;
      var D := if j + 1 <= i then DiagonalWeight(g, y, quarter, i) * x[i] else 0;
      EntryArithmetic(p, w, quarter, z, x[j], D, NeighbourSum(g, x, i, j + 1), SignSum(x, j + 1));
    } else {
      assert quarter * 0 == 0 && z * 0 == 0;
    }
  }

  ghost function Total(y: seq<int>, i: nat): int
    decreases |y| - i
  {
    if i >= |y| then 0 else y[i] + Total(y, i + 1)
  }

  lemma {:induction false} BaseRows(g: Graph, y: seq<int>, z: int, quarter: int, T: set<Vertex>, i: nat)
    requires |y| == Size(g) && T <= Vertices(g)
    ensures Rows(Base(g, y, z, quarter), Signs(T, Size(g)), i, 0) ==
            quarter * (2 * CrossingSum(g, T, i)) - Total(y, i)
            - z * (SignSum(Signs(T, Size(g)), i) * SignSum(Signs(T, Size(g)), 0))
    decreases Size(g) - i
  {
    hide Base, RowDot, Signs, Crossing, NeighbourSum;
    var x := Signs(T, Size(g));
    var h := SignSum(x, 0);
    if i < Size(g) {
      BaseRows(g, y, z, quarter, T, i + 1);
      BaseRow(g, y, z, quarter, T, i);
      RowsArithmetic(quarter, z, Crossing(g, T, i), CrossingSum(g, T, i + 1), x[i], SignSum(x, i + 1), h);
    } else {
      assert quarter * 0 == 0 && 0 * h == 0 && z * 0 == 0;
    }
  }

  lemma RowsArithmetic(q: int, z: int, c: int, C: int, s: int, S: int, h: int)
    ensures q * (2 * c) - z * (s * h) + (q * (2 * C) - z * (S * h)) == q * (2 * (c + C)) - z * ((s + S) * h)
  {
    assert (s + S) * h == s * h + S * h;
    assert z * (s * h + S * h) == z * (s * h) + z * (S * h);
  }

  lemma BaseRow(g: Graph, y: seq<int>, z: int, quarter: int, T: set<Vertex>, i: nat)
    requires |y| == Size(g) && T <= Vertices(g) && i < Size(g)
    ensures var x := Signs(T, Size(g));
            x[i] * RowDot(Base(g, y, z, quarter), x, i, 0)
            == quarter * (2 * Crossing(g, T, i)) - y[i] - z * (x[i] * SignSum(x, 0))
  {
    var x := Signs(T, Size(g));
    BaseRowDot(g, y, z, quarter, x, i, 0);
    SignedDegree(g, T, i);
    BaseRowArithmetic(quarter, Degree(g, i), y[i], x[i], NeighbourSum(g, x, i, 0), z, SignSum(x, 0),
                      Crossing(g, T, i), RowDot(Base(g, y, z, quarter), x, i, 0));
  }

  lemma BaseRowArithmetic(q: int, d: int, y: int, s: int, N: int, z: int, h: int, c: int, R: int)
    requires s == 1 || s == -1
    requires s * (d * s - N) == 2 * c
    requires R == (q * d - y) * s - q * N - z * h
    ensures s * R == q * (2 * c) - y - z * (s * h)
  {
    assert q * (s * (d * s - N)) == q * (2 * c);
    if s == 1 {
      assert q * (d - N) == q * d - q * N;
    } else {
      assert q * (d + N) == q * d + q * N;
      assert z * (-h) == -(z * h);
    }
  }

  /** x'(quarter L - diag(y) - z J)x = 4 quarter cut(T) - sum y - z (2|T| - n)^2 */
  lemma BaseForm(g: Graph, y: seq<int>, z: int, quarter: int, T: set<Vertex>, h: int)
    requires |y| == Size(g) && T <= Vertices(g) && h == 2 * |T| - Size(g)
    ensures Form(Base(g, y, z, quarter), Signs(T, Size(g)), 0) ==
            4 * quarter * Cut(g, T) - Total(y, 0) - z * (h * h)
  {
    BaseRows(g, y, z, quarter, T, 0);
    CrossingTotal(g, T);
    SignTotal(g, T);
    assert SignSum(Signs(T, Size(g)), 0) == h;
    Quadruple(quarter, CrossingSum(g, T, 0), Cut(g, T));
  }

  lemma Quadruple(q: int, C: int, c: int)
    requires C == 2 * c
    ensures q * (2 * C) == 4 * q * c
  {
  }
}
