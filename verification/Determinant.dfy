/**
  Determinants of integer matrices by expansion along the first column, up to
  condensation: eliminating the first column with the pivot in front multiplies
  the determinant by a power of that pivot.
 */
module Determinants {
  import opened QuadraticForms

  ghost function Pow(b: int, e: nat): int {
    if e == 0 then 1 else b * Pow(b, e - 1)
  }

  lemma {:induction false} PowPositive(b: int, e: nat)
    requires b > 0
    ensures Pow(b, e) > 0
  {
    if e > 0 {
      PowPositive(b, e - 1);
      assert b * Pow(b, e - 1) > 0;
    }
  }

  /** The matrix without row r and without its first column. */
  ghost function Drop(m: Matrix, r: nat): (d: Matrix)
    requires Square(m) && r < |m|
    ensures Square(d) && |d| == |m| - 1
  {
    seq(|m| - 1, i requires 0 <= i < |m| - 1 => (if i < r then m[i] else m[i + 1])[1..])
  }

  ghost function Sign(r: nat): int {
    if r % 2 == 0 then 1 else -1
  }

  ghost function Det(m: Matrix): int
    requires Square(m)
    decreases |m|, |m| + 2
  {
    if m == [] then 1 else Terms(m, |m|)
  }

  /** The first r terms of the expansion. */
  ghost function Terms(m: Matrix, r: nat): int
    requires Square(m) && r <= |m|
    decreases |m|, r + 1
  {
    if r == 0 then 0 else Terms(m, r - 1) + Term(m, r - 1)
  }

  ghost function Term(m: Matrix, r: nat): int
    requires Square(m) && r < |m|
    decreases |m|, 0
  {
    Sign(r) * m[r][0] * Det(Drop(m, r))
  }

  // ----- linear in every row -----

  /** The matrix with x as row i. */
  ghost function With(m: Matrix, i: nat, x: seq<int>): (w: Matrix)
    requires Square(m) && i < |m| && |x| == |m|
    ensures Square(w) && |w| == |m|
  {
    m[i := x]
  }

  ghost function Combine(a: int, x: seq<int>, b: int, y: seq<int>): (z: seq<int>)
    requires |x| == |y|
    ensures |z| == |x|
  {
    seq(|x|, j requires 0 <= j < |x| => a * x[j] + b * y[j])
  }

  lemma DropWith(m: Matrix, i: nat, x: seq<int>, r: nat)
    requires Square(m) && i < |m| && |x| == |m| && r < |m|
    ensures r == i ==> Drop(With(m, i, x), r) == Drop(m, r)
    ensures r != i ==> Drop(With(m, i, x), r) == With(Drop(m, r), if i < r then i else i - 1, x[1..])
  {
  }

  lemma CombineTail(a: int, x: seq<int>, b: int, y: seq<int>)
    requires |x| == |y| > 0
    ensures Combine(a, x, b, y)[1..] == Combine(a, x[1..], b, y[1..]) && Combine(a, x, b, y)[0] == a * x[0] + b * y[0]
  {
  }

  lemma {:induction false} DetLinear(m: Matrix, i: nat, a: int, x: seq<int>, b: int, y: seq<int>)
    requires Square(m) && i < |m| && |x| == |y| == |m|
    ensures Det(With(m, i, Combine(a, x, b, y))) == a * Det(With(m, i, x)) + b * Det(With(m, i, y))
    decreases |m|, |m| + 1
  {
    hide Combine, With, Term, Terms;
    TermsLinear(m, i, a, x, b, y, |m|);
  }

  lemma {:induction false} TermsLinear(m: Matrix, i: nat, a: int, x: seq<int>, b: int, y: seq<int>, r: nat)
    requires Square(m) && i < |m| && |x| == |y| == |m| && r <= |m|
    ensures Terms(With(m, i, Combine(a, x, b, y)), r) == a * Terms(With(m, i, x), r) + b * Terms(With(m, i, y), r)
    decreases |m|, r
  {
    hide Combine, With, Term;
    if r > 0 {
      TermsLinear(m, i, a, x, b, y, r - 1);
      TermLinear(m, i, a, x, b, y, r - 1);
      Regroup(a, Terms(With(m, i, x), r - 1), Term(With(m, i, x), r - 1),
              b, Terms(With(m, i, y), r - 1), Term(With(m, i, y), r - 1));
    }
  }

  lemma Regroup(a: int, p: int, q: int, b: int, u: int, v: int)
    ensures (a * p + b * u) + (a * q + b * v) == a * (p + q) + b * (u + v)
  {
  }

  lemma {:induction false} TermLinear(m: Matrix, i: nat, a: int, x: seq<int>, b: int, y: seq<int>, r: nat)
    requires Square(m) && i < |m| && |x| == |y| == |m| && r < |m|
    ensures Term(With(m, i, Combine(a, x, b, y)), r) == a * Term(With(m, i, x), r) + b * Term(With(m, i, y), r)
    decreases |m|, 0
  {
    hide Det, Drop, Combine, Sign;
    var z := Combine(a, x, b, y);
    DropWith(m, i, x, r);
    DropWith(m, i, y, r);
    DropWith(m, i, z, r);
    CombineTail(a, x, b, y);
    if r == i {
      EntryLinear(Sign(r), a, x[0], b, y[0], Det(Drop(m, r)));
    } else {
      var d, i' := Drop(m, r), if i < r then i else i - 1;
      DetLinear(d, i', a, x[1..], b, y[1..]);
      MinorLinear(Sign(r) * m[r][0], a, Det(With(d, i', x[1..])), b, Det(With(d, i', y[1..])));
    }
  }

  lemma EntryLinear(s: int, a: int, x: int, b: int, y: int, d: int)
    ensures s * (a * x + b * y) * d == a * (s * x * d) + b * (s * y * d)
  {
    assert s * (a * x + b * y) == a * (s * x) + b * (s * y);
  }

  lemma MinorLinear(s: int, a: int, x: int, b: int, y: int)
    ensures s * (a * x + b * y) == a * (s * x) + b * (s * y)
  {
  }

  // ----- alternating -----

  lemma DropEqual(m: Matrix, i: nat, r: nat)
    requires Square(m) && i + 1 < |m| && m[i] == m[i + 1] && r < |m|
    ensures r == i || r == i + 1 ==> Drop(m, i) == Drop(m, i + 1)
    ensures r < i ==> Drop(m, r)[i - 1] == Drop(m, r)[i]
    ensures r > i + 1 ==> Drop(m, r)[i] == Drop(m, r)[i + 1]
  {
  }

  lemma {:induction false} AdjacentEqual(m: Matrix, i: nat)
    requires Square(m) && i + 1 < |m| && m[i] == m[i + 1]
    ensures Det(m) == 0
    decreases |m|, |m| + 1
  {
    AdjacentTerms(m, i, |m|);
  }

  /** With rows i and i + 1 equal, the terms of these two cancel, and all others vanish. */
  lemma {:induction false} AdjacentTerms(m: Matrix, i: nat, r: nat)
    requires Square(m) && i + 1 < |m| && m[i] == m[i + 1] && r <= |m|
    ensures Terms(m, r) == if r == i + 1 then Term(m, i) else 0
    decreases |m|, r
  {
    hide Term;
    if r > 0 {
      AdjacentTerms(m, i, r - 1);
      AdjacentTerm(m, i, r - 1);
    }
  }

  lemma {:induction false} AdjacentTerm(m: Matrix, i: nat, r: nat)
    requires Square(m) && i + 1 < |m| && m[i] == m[i + 1] && r < |m|
    ensures r == i + 1 ==> Term(m, i) + Term(m, r) == 0
    ensures r != i && r != i + 1 ==> Term(m, r) == 0
    decreases |m|, 0
  {
    hide Drop, Det;
    DropEqual(m, i, r);
    if r < i {
      AdjacentEqual(Drop(m, r), i - 1);
    } else if r > i + 1 {
      AdjacentEqual(Drop(m, r), i);
    } else if r == i + 1 {
      Opposite(Sign(i), Sign(r), m[i][0], Det(Drop(m, i)));
    }
  }

  lemma Opposite(s: int, t: int, x: int, d: int)
    requires s == -t
    ensures s * x * d + t * x * d == 0
  {
  }

  ghost function Swapped(m: Matrix, i: nat): (w: Matrix)
    requires Square(m) && i + 1 < |m|
    ensures Square(w) && |w| == |m|
  {
    m[i := m[i + 1]][i + 1 := m[i]]
  }

  /** The determinant with u and v as rows i and i + 1. */
  ghost function Two(m: Matrix, i: nat, u: seq<int>, v: seq<int>): int
    requires Square(m) && i + 1 < |m| && |u| == |v| == |m|
  {
    Det(With(With(m, i, u), i + 1, v))
  }

  lemma TwoLinear(m: Matrix, i: nat, x: seq<int>, y: seq<int>, v: seq<int>)
    requires Square(m) && i + 1 < |m| && |x| == |y| == |v| == |m|
    ensures Two(m, i, Combine(1, x, 1, y), v) == Two(m, i, x, v) + Two(m, i, y, v)
    ensures Two(m, i, v, Combine(1, x, 1, y)) == Two(m, i, v, x) + Two(m, i, v, y)
  {
    hide Combine, Det;
    DetLinear(With(m, i + 1, v), i, 1, x, 1, y);
    DetLinear(With(m, i, v), i + 1, 1, x, 1, y);
    forall u: seq<int> | |u| == |m| ensures With(With(m, i, u), i + 1, v) == With(With(m, i + 1, v), i, u) {
    }
  }

  lemma SwapNegates(m: Matrix, i: nat)
    requires Square(m) && i + 1 < |m|
    ensures Det(Swapped(m, i)) == -Det(m)
  {
    hide Combine, Det;
    var x, y := m[i], m[i + 1];
    var z := Combine(1, x, 1, y);
    forall u: seq<int> | |u| == |m| ensures Two(m, i, u, u) == 0 {
      AdjacentEqual(With(With(m, i, u), i + 1, u), i);
    }
    TwoLinear(m, i, x, y, x);
    TwoLinear(m, i, x, y, y);
    TwoLinear(m, i, x, y, z);
    assert With(With(m, i, x), i + 1, y) == m && With(With(m, i, y), i + 1, x) == Swapped(m, i);
  }

  lemma {:induction false} FirstEqual(m: Matrix, j: nat)
    requires Square(m) && 1 <= j < |m| && m[0] == m[j]
    ensures Det(m) == 0
    decreases j
  {
    hide Det;
    if j == 1 {
      AdjacentEqual(m, 0);
    } else {
      SwapNegates(m, j - 1);
      FirstEqual(Swapped(m, j - 1), j - 1);
    }
  }

  /** Scaling row i and adding a multiple of the first row scales the determinant. */
  lemma AddFirst(m: Matrix, i: nat, s: int, c: int)
    requires Square(m) && 1 <= i < |m|
    ensures Det(With(m, i, Combine(s, m[i], c, m[0]))) == s * Det(m)
  {
    hide Combine, Det;
    DetLinear(m, i, s, m[i], c, m[0]);
    FirstEqual(With(m, i, m[0]), i);
    assert With(m, i, m[i]) == m;
    assert c * 0 == 0;
  }

  // ----- condensation -----

  /** Rows 1 to j with the first column eliminated. */
  ghost function Cleared(m: Matrix, j: nat): (c: Matrix)
    requires Square(m) && j < |m|
    ensures Square(c) && |c| == |m|
  {
    seq(|m|, i requires 0 <= i < |m| => if 1 <= i <= j then Combine(m[0][0], m[i], -m[i][0], m[0]) else m[i])
  }

  lemma ClearedStep(m: Matrix, j: nat)
    requires Square(m) && 1 <= j < |m|
    ensures var c := Cleared(m, j - 1);
            && c[j] == m[j] && c[0] == m[0]
            && Cleared(m, j) == With(c, j, Combine(m[0][0], m[j], -m[j][0], m[0]))
  {
    hide Combine;
  }

  lemma {:induction false} ClearedDet(m: Matrix, j: nat)
    requires Square(m) && j < |m|
    ensures Det(Cleared(m, j)) == Pow(m[0][0], j) * Det(m)
    decreases j
  {
    hide Combine, Det, With;
    if j == 0 {
      assert Cleared(m, 0) == m;
    } else {
      ClearedDet(m, j - 1);
      ClearedStep(m, j);
      AddFirst(Cleared(m, j - 1), j, m[0][0], -m[j][0]);
      PowStep(m[0][0], j, Det(m));
    }
  }

  lemma PowStep(b: int, e: nat, d: int)
    requires e > 0
    ensures b * (Pow(b, e - 1) * d) == Pow(b, e) * d
  {
  }

  ghost predicate ZeroBelow(m: Matrix) {
    Square(m) && forall i :: 1 <= i < |m| ==> m[i][0] == 0
  }

  /** Only the first term is left when the first column is zero below the pivot. */
  lemma {:induction false} OneTerm(m: Matrix, r: nat)
    requires Square(m) && 1 <= r <= |m| && ZeroBelow(m)
    ensures Terms(m, r) == m[0][0] * Det(Drop(m, 0))
    decreases r
  {
    hide Drop, Det;
    if r == 1 {
      assert Terms(m, 1) == Terms(m, 0) + Term(m, 0);
    } else {
      OneTerm(m, r - 1);
      ZeroTerm(Sign(r - 1), Det(Drop(m, r - 1)));
    }
  }

  lemma ZeroTerm(s: int, d: int)
    ensures s * 0 * d == 0
  {
  }

  /** The pivot times every entry less the product of what leads to it. */
  ghost predicate Condenses(m: Matrix, c: Matrix) {
    && Square(m) && Square(c) && |m| == |c| + 1
    && forall i, j :: 0 <= i < |c| && 0 <= j < |c| ==> c[i][j] == m[0][0] * m[i + 1][j + 1] - m[i + 1][0] * m[0][j + 1]
  }

  lemma CondensedIsCleared(m: Matrix, c: Matrix)
    requires Condenses(m, c)
    ensures Drop(Cleared(m, |m| - 1), 0) == c && Cleared(m, |m| - 1)[0] == m[0] && ZeroBelow(Cleared(m, |m| - 1))
  {
    hide Cleared, Combine;
    var k := Cleared(m, |m| - 1);
    forall i | 0 <= i < |m| ensures if i == 0 then k[i] == m[i] else k[i] == Combine(m[0][0], m[i], -m[i][0], m[0]) {
      ClearedRow(m, |m| - 1, i);
    }
    forall i | 1 <= i < |m| ensures k[i][0] == 0 && k[i][1..] == c[i - 1] {
      CombineTail(m[0][0], m[i], -m[i][0], m[0]);
      Vanishes(m[0][0], m[i][0]);
      CondensedRow(m, c, i - 1);
    }
    assert forall i :: 0 <= i < |c| ==> Drop(k, 0)[i] == k[i + 1][1..];
  }

  lemma ClearedRow(m: Matrix, j: nat, i: nat)
    requires Square(m) && j < |m| && i < |m|
    ensures Cleared(m, j)[i] == if 1 <= i <= j then Combine(m[0][0], m[i], -m[i][0], m[0]) else m[i]
  {
    hide Combine;
  }

  lemma Vanishes(p: int, x: int)
    ensures p * x + -x * p == 0
  {
  }

  lemma CondensedRow(m: Matrix, c: Matrix, i: nat)
    requires Condenses(m, c) && i < |c|
    ensures Combine(m[0][0], m[i + 1], -m[i + 1][0], m[0])[1..] == c[i]
  {
    var z := Combine(m[0][0], m[i + 1], -m[i + 1][0], m[0])[1..];
    forall j | 0 <= j < |c| ensures z[j] == c[i][j] {
      assert z[j] == m[0][0] * m[i + 1][j + 1] + -m[i + 1][0] * m[0][j + 1];
    }
  }

  /** Condensation: the pivot times the condensed determinant is a power of the pivot times the determinant. */
  lemma Condensation(m: Matrix, c: Matrix)
    requires Condenses(m, c)
    ensures m[0][0] * Det(c) == Pow(m[0][0], |c|) * Det(m)
  {
    hide Cleared, Drop, Terms;
    CondensedIsCleared(m, c);
    ClearedDet(m, |m| - 1);
    OneTerm(Cleared(m, |m| - 1), |m|);
  }

  // ----- scaling all entries -----

  ghost predicate Scales(q: int, b: Matrix, c: Matrix) {
    && Square(b) && Square(c) && |b| == |c|
    && forall i, j :: 0 <= i < |b| && 0 <= j < |b| ==> c[i][j] == q * b[i][j]
  }

  lemma {:induction false} ScaledDet(q: int, b: Matrix, c: Matrix)
    requires Scales(q, b, c)
    ensures Det(c) == Pow(q, |b|) * Det(b)
    decreases |b|, |b| + 1
  {
    hide Terms;
    if b != [] {
      ScaledTerms(q, b, c, |b|);
    }
  }

  lemma {:induction false} ScaledTerms(q: int, b: Matrix, c: Matrix, r: nat)
    requires Scales(q, b, c) && r <= |b|
    ensures Terms(c, r) == Pow(q, |b|) * Terms(b, r)
    decreases |b|, r
  {
    hide Det, Drop, Sign;
    if r > 0 {
      ScaledTerms(q, b, c, r - 1);
      DropScales(q, b, c, r - 1);
      ScaledDet(q, Drop(b, r - 1), Drop(c, r - 1));
      ScaledProduct(Sign(r - 1), q, b[r - 1][0], Pow(q, |b| - 1), Det(Drop(b, r - 1)));
      Together(Pow(q, |b|), Terms(b, r - 1), Term(b, r - 1));
    }
  }

  lemma DropScales(q: int, b: Matrix, c: Matrix, r: nat)
    requires Scales(q, b, c) && r < |b|
    ensures Scales(q, Drop(b, r), Drop(c, r))
  {
  }

  lemma ScaledProduct(s: int, q: int, x: int, p: int, d: int)
    ensures s * (q * x) * (p * d) == (q * p) * (s * x * d)
  {
    calc {
      s * (q * x) * (p * d);
      (q * (s * x)) * (p * d);
      q * ((s * x) * (p * d));
      q * (p * (s * x * d));
      (q * p) * (s * x * d);
    }
  }

  lemma Together(p: int, x: int, y: int)
    ensures p * x + p * y == p * (x + y)
  {
  }

  // ----- determinants of chosen rows and columns -----

  ghost predicate Indices(I: seq<nat>, k: nat, n: nat) {
    forall a :: 0 <= a < |I| ==> k <= I[a] < n
  }

  ghost function Minor(M: Matrix, I: seq<nat>, J: seq<nat>): (m: Matrix)
    requires Square(M) && Indices(I, 0, |M|) && Indices(J, 0, |M|) && |I| == |J|
    ensures Square(m) && |m| == |I|
  {
    seq(|I|, a requires 0 <= a < |I| => seq(|J|, b requires 0 <= b < |J| => M[I[a]][J[b]]))
  }

  lemma DetOfOne(m: Matrix)
    requires Square(m) && |m| == 1
    ensures Det(m) == m[0][0]
  {
    assert Terms(m, 1) == Terms(m, 0) + Term(m, 0);
    assert Drop(m, 0) == [];
    assert Term(m, 0) == m[0][0];
  }

  lemma DetOfTwo(m: Matrix)
    requires Square(m) && |m| == 2
    ensures Det(m) == m[0][0] * m[1][1] - m[1][0] * m[0][1]
  {
    var a, b := Drop(m, 0), Drop(m, 1);
    assert a[0][0] == m[1][1] && b[0][0] == m[0][1];
    DetOfOne(a);
    DetOfOne(b);
    hide Det, Drop;
    assert Terms(m, 2) == Terms(m, 1) + Term(m, 1) && Terms(m, 1) == Terms(m, 0) + Term(m, 0);
  }
}
