/**
 Exact solution of the symmetric pentadiagonal system that the cepstral smoother sets up
 (pico/lib/picocep.c, `invMatrix`), over `real` and without row scaling.

 A system is given by its three bands.  Reading past either end of a band or of a vector yields 0,
 so that no equation below needs a special case for the first and last rows.
 */
module PentaSolver {

  datatype Penta = Penta(a0: seq<real>, a1: seq<real>, a2: seq<real>)

  /** One row of the factorisation A = L D L^T: the pivot and the two multipliers below it. */
  datatype Row = Row(d: real, l1: real, l2: real)

  function At(s: seq<real>, i: int): real {
    if 0 <= i < |s| then s[i] else 0.0
  }

  function RowAt(f: seq<Row>, i: int): Row {
    if 0 <= i < |f| then f[i] else Row(0.0, 0.0, 0.0)
  }

  ghost predicate Shape(a: Penta, n: nat) {
    |a.a0| == n && |a.a1| == (if n < 1 then 0 else n - 1) && |a.a2| == (if n < 2 then 0 else n - 2)
  }

  /** Row `i` of the symmetric matrix times `x`. */
  function RowDot(a: Penta, x: seq<real>, i: int): real {
    At(a.a2, i - 2) * At(x, i - 2) + At(a.a1, i - 1) * At(x, i - 1) + At(a.a0, i) * At(x, i)
    + At(a.a1, i) * At(x, i + 1) + At(a.a2, i) * At(x, i + 2)
  }

  ghost predicate IsSolution(a: Penta, m: seq<real>, x: seq<real>) {
    |x| == |m| && forall i :: 0 <= i < |m| ==> RowDot(a, x, i) == m[i]
  }

  // ---------------------------------------------------------------------------
  // The factorisation
  // ---------------------------------------------------------------------------

  ghost predicate RowEquations(a0: real, a1: real, a2: real, r: Row, p: Row, q: Row) {
    && r.d + p.l1 * (p.l1 * p.d) + q.l2 * (q.l2 * q.d) == a0
    && r.d * r.l1 + p.l2 * (p.l1 * p.d) == a1
    && r.d * r.l2 == a2
  }

  /** The entries of L D L^T on and below the diagonal of column `j` are those of A. */
  ghost predicate RowFactored(a: Penta, f: seq<Row>, j: int) {
    RowEquations(At(a.a0, j), At(a.a1, j), At(a.a2, j), RowAt(f, j), RowAt(f, j - 1), RowAt(f, j - 2))
  }

  ghost predicate Factored(a: Penta, f: seq<Row>) {
    forall j :: 0 <= j < |f| ==> RowFactored(a, f, j)
  }

  ghost predicate NonzeroPivots(f: seq<Row>) {
    forall j :: 0 <= j < |f| ==> f[j].d != 0.0
  }

  ghost predicate PositivePivots(f: seq<Row>) {
    forall j :: 0 <= j < |f| ==> f[j].d > 0.0
  }

  function Quotient(e: real, d: real): real {
    if d == 0.0 then 0.0 else e / d
  }

  /** The factorisation, column by column. */
  function Factors(a: Penta, n: nat): (f: seq<Row>)
    ensures |f| == n
  {
    if n == 0 then []
    else
      var f := Factors(a, n - 1);
      f + [NextRow(a, f)]
  }

  function NextRow(a: Penta, f: seq<Row>): Row {
    var j := |f|;
    var p, q := RowAt(f, j - 1), RowAt(f, j - 2);
    var d := PivotOf(At(a.a0, j), p, q);
    Row(d, Quotient(OffPivot(At(a.a1, j), p), d), Quotient(At(a.a2, j), d))
  }

  lemma QuotientTimes(e: real, d: real)
    requires d != 0.0
    ensures d * Quotient(e, d) == e
  {
  }

  lemma FactoredPrefix(a: Penta, f: seq<Row>, g: seq<Row>)
    requires f <= g && Factored(a, f) && (forall j :: |f| <= j < |g| ==> RowFactored(a, g, j))
    ensures Factored(a, g)
  {
    forall i | 0 <= i < |f| ensures RowFactored(a, g, i) {
      assert RowFactored(a, f, i);
      assert RowAt(f, i) == RowAt(g, i) && RowAt(f, i - 1) == RowAt(g, i - 1) && RowAt(f, i - 2) == RowAt(g, i - 2);
    }
  }

  lemma NextRowFactored(a: Penta, f: seq<Row>)
    requires NextRow(a, f).d != 0.0
    ensures RowFactored(a, f + [NextRow(a, f)], |f|)
  {
    var j := |f|;
    var g := f + [NextRow(a, f)];
    var p := RowAt(f, j - 1);
    assert RowAt(g, j) == NextRow(a, f) && RowAt(g, j - 1) == p && RowAt(g, j - 2) == RowAt(f, j - 2);
    QuotientTimes(At(a.a1, j) - p.l2 * (p.l1 * p.d), g[j].d);
    QuotientTimes(At(a.a2, j), g[j].d);
  }

  lemma {:induction false} FactorsPrefix(a: Penta, n: nat, k: nat)
    requires k <= n
    ensures Factors(a, n)[..k] == Factors(a, k)
  {
    if k >= n {
    } else {
      FactorsPrefix(a, n - 1, k);
    }
  }

  /** With non-zero pivots the recurrence does produce A = L D L^T. */
  lemma {:induction false} FactorsFactored(a: Penta, n: nat)
    requires NonzeroPivots(Factors(a, n))
    ensures Factored(a, Factors(a, n))
  {
    if n == 0 {
    } else {
      var f := Factors(a, n - 1);
      assert forall j :: 0 <= j < n - 1 ==> Factors(a, n)[j] == f[j];
      FactorsFactored(a, n - 1);
      assert Factors(a, n)[n - 1] == NextRow(a, f);
      NextRowFactored(a, f);
      FactoredPrefix(a, f, Factors(a, n));
    }
  }

  // ---------------------------------------------------------------------------
  // A x = L (D (L^T x)), row by row
  // ---------------------------------------------------------------------------

  function UpperDot(f: seq<Row>, x: seq<real>, j: int): real {
    At(x, j) + RowAt(f, j).l1 * At(x, j + 1) + RowAt(f, j).l2 * At(x, j + 2)
  }

  /** A row of L times the vector whose last three entries are `u`, `v`, `w` (from the diagonal leftwards). */
  function LowerDot(p: Row, q: Row, u: real, v: real, w: real): real {
    u + p.l1 * v + q.l2 * w
  }

  function DiagUpperDot(f: seq<Row>, x: seq<real>, j: int): real {
    RowAt(f, j).d * UpperDot(f, x, j)
  }

  lemma RowFactors(a: Penta, f: seq<Row>, x: seq<real>, i: nat)
    requires Factored(a, f) && i < |f|
    ensures RowDot(a, x, i)
         == LowerDot(RowAt(f, i - 1), RowAt(f, i - 2), DiagUpperDot(f, x, i), DiagUpperDot(f, x, i - 1),
                     DiagUpperDot(f, x, i - 2))
  {
    var r, p, q := RowAt(f, i), RowAt(f, i - 1), RowAt(f, i - 2);
    assert RowFactored(a, f, i);
    LeftFactors(a, f, i);
    hide RowEquations, LeftEquations, LowerDot, RowFactored;
    RowSum(r, p, q, At(a.a2, i - 2), At(a.a1, i - 1), At(a.a0, i), At(a.a1, i), At(a.a2, i),
           At(x, i - 2), At(x, i - 1), At(x, i), At(x, i + 1), At(x, i + 2));
  }

  /** The entries left of the diagonal, which by symmetry are those above it in the two rows before. */
  ghost predicate LeftEquations(b2: real, b1: real, p: Row, q: Row) {
    b1 == p.d * p.l1 + q.l2 * (q.l1 * q.d) && b2 == q.d * q.l2
  }

  lemma LeftFactors(a: Penta, f: seq<Row>, i: nat)
    requires Factored(a, f) && i < |f|
    ensures LeftEquations(At(a.a2, i - 2), At(a.a1, i - 1), RowAt(f, i - 1), RowAt(f, i - 2))
  {
    assert i >= 1 ==> RowFactored(a, f, i - 1);
    assert i >= 2 ==> RowFactored(a, f, i - 2);
  }

  /** A row of the matrix times a vector, from the factors of its entries. */
  lemma RowSum(r: Row, p: Row, q: Row, b2: real, b1: real, a0: real, a1: real, a2: real,
               xb: real, xa: real, x0: real, x1: real, x2: real)
    requires RowEquations(a0, a1, a2, r, p, q) && LeftEquations(b2, b1, p, q)
    ensures b2 * xb + b1 * xa + a0 * x0 + a1 * x1 + a2 * x2
         == LowerDot(p, q, r.d * (x0 + r.l1 * x1 + r.l2 * x2), p.d * (xa + p.l1 * x0 + p.l2 * x1),
                     q.d * (xb + q.l1 * xa + q.l2 * x0))
  {
    RowAlgebra(r.d, r.l1, r.l2, p.d, p.l1, p.l2, q.d, q.l1, q.l2, xb, xa, x0, x1, x2);
  }

  lemma RowAlgebra(d: real, l1: real, l2: real, pd: real, p1: real, p2: real, qd: real, q1: real, q2: real,
                   xb: real, xa: real, x0: real, x1: real, x2: real)
    ensures d * (x0 + l1 * x1 + l2 * x2) + p1 * (pd * (xa + p1 * x0 + p2 * x1)) + q2 * (qd * (xb + q1 * xa + q2 * x0))
         == (qd * q2) * xb + (pd * p1 + q2 * (q1 * qd)) * xa + (d + p1 * (p1 * pd) + q2 * (q2 * qd)) * x0
            + (d * l1 + p2 * (p1 * pd)) * x1 + (d * l2) * x2
  {
    assert p1 * (pd * (xa + p1 * x0 + p2 * x1)) == (pd * p1) * xa + (p1 * (p1 * pd)) * x0 + (p2 * (p1 * pd)) * x1;
    assert q2 * (qd * (xb + q1 * xa + q2 * x0)) == (qd * q2) * xb + (q2 * (q1 * qd)) * xa + (q2 * (q2 * qd)) * x0;
  }

  // ---------------------------------------------------------------------------
  // Substitution
  // ---------------------------------------------------------------------------

  function NextForward(f: seq<Row>, m: seq<real>, y: seq<real>): real {
    var j := |y|;
    At(m, j) - RowAt(f, j - 1).l1 * At(y, j - 1) - RowAt(f, j - 2).l2 * At(y, j - 2)
  }

  /** The first `k` entries of L^-1 m. */
  function Forward(f: seq<Row>, m: seq<real>, k: nat): (y: seq<real>)
    ensures |y| == k
  {
    if k == 0 then []
    else
      var y := Forward(f, m, k - 1);
      y + [NextForward(f, m, y)]
  }

  lemma {:induction false} ForwardEquation(f: seq<Row>, m: seq<real>, k: nat, j: nat)
    requires j < k
    ensures At(m, j) == LowerDot(RowAt(f, j - 1), RowAt(f, j - 2), At(Forward(f, m, k), j), At(Forward(f, m, k), j - 1),
                                 At(Forward(f, m, k), j - 2))
  {
    var y := Forward(f, m, k);
    var z := Forward(f, m, k - 1);
    assert forall i :: i < k - 1 ==> At(y, i) == At(z, i);
    if j < k - 1 {
      ForwardEquation(f, m, k - 1, j);
    } else {
      assert y[j] == NextForward(f, m, z);
    }
  }

  /** D L^T x == y. */
  ghost predicate IsBackward(f: seq<Row>, y: seq<real>, x: seq<real>) {
    |f| == |y| == |x| && forall j :: 0 <= j < |x| ==> DiagUpperDot(f, x, j) == y[j]
  }

  lemma BackwardAt(f: seq<Row>, y: seq<real>, x: seq<real>, j: int)
    requires IsBackward(f, y, x) && j < |f|
    ensures DiagUpperDot(f, x, j) == At(y, j)
  {
  }

  lemma SubstitutionSolvesRow(a: Penta, f: seq<Row>, m: seq<real>, x: seq<real>, i: nat)
    requires Factored(a, f) && |f| == |m| && i < |m|
    requires IsBackward(f, Forward(f, m, |m|), x)
    ensures RowDot(a, x, i) == m[i]
  {
    var y := Forward(f, m, |m|);
    RowFactors(a, f, x, i);
    ForwardEquation(f, m, |m|, i);
    BackwardAt(f, y, x, i);
    BackwardAt(f, y, x, i - 1);
    BackwardAt(f, y, x, i - 2);
  }

  /** Forward and back substitution together solve A x = m. */
  lemma SubstitutionSolves(a: Penta, f: seq<Row>, m: seq<real>, x: seq<real>)
    requires Factored(a, f) && |f| == |m|
    requires IsBackward(f, Forward(f, m, |m|), x)
    ensures IsSolution(a, m, x)
  {
    forall i | 0 <= i < |m| ensures RowDot(a, x, i) == m[i] {
      SubstitutionSolvesRow(a, f, m, x, i);
    }
  }

  /** Any solution satisfies D L^T x = L^-1 m. */
  lemma {:induction false} SolutionForward(a: Penta, f: seq<Row>, m: seq<real>, x: seq<real>, k: nat)
    requires Factored(a, f) && |f| == |m| && IsSolution(a, m, x) && k <= |m|
    ensures forall j :: j < k ==> DiagUpperDot(f, x, j) == At(Forward(f, m, k), j)
  {
    if k == 0 {
    } else {
      var j := k - 1;
      SolutionForward(a, f, m, x, j);
      RowFactors(a, f, x, j);
      assert RowDot(a, x, j) == At(m, j);
      ForwardEquation(f, m, k, j);
      var y, z := Forward(f, m, k), Forward(f, m, j);
      assert forall i :: i < j ==> At(y, i) == At(z, i);
      LowerDotCancel(RowAt(f, j - 1), RowAt(f, j - 2), DiagUpperDot(f, x, j), At(y, j), At(y, j - 1), At(y, j - 2));
    }
  }

  lemma LowerDotCancel(p: Row, q: Row, u: real, t: real, v: real, w: real)
    requires LowerDot(p, q, u, v, w) == LowerDot(p, q, t, v, w)
    ensures u == t
  {
  }

  lemma CancelFactor(d: real, u: real, v: real)
    requires d != 0.0 && d * u == d * v
    ensures u == v
  {
  }

  lemma FirstTerm(r: Row, u: real, t: real, v: real, w: real)
    requires u + r.l1 * v + r.l2 * w == t + r.l1 * v + r.l2 * w
    ensures u == t
  {
  }

  /** Back substitution has only one outcome. */
  lemma {:induction false} BackwardUnique(f: seq<Row>, y: seq<real>, x: seq<real>, z: seq<real>, j: nat)
    requires NonzeroPivots(f) && IsBackward(f, y, x) && IsBackward(f, y, z) && j <= |f|
    ensures forall i :: j <= i ==> At(x, i) == At(z, i)
    decreases |f| - j
  {
    if j >= |f| {
    } else {
      BackwardUnique(f, y, x, z, j + 1);
      BackwardAt(f, y, x, j);
      BackwardAt(f, y, z, j);
      CancelFactor(f[j].d, UpperDot(f, x, j), UpperDot(f, z, j));
      assert At(x, j + 1) == At(z, j + 1) && At(x, j + 2) == At(z, j + 2);
      FirstTerm(RowAt(f, j), At(x, j), At(z, j), At(x, j + 1), At(x, j + 2));
    }
  }

  /** A system with non-zero pivots has at most one solution. */
  lemma SolutionUnique(a: Penta, m: seq<real>, x: seq<real>, z: seq<real>)
    requires NonzeroPivots(Factors(a, |m|)) && IsSolution(a, m, x) && IsSolution(a, m, z)
    ensures x == z
  {
    var f := Factors(a, |m|);
    FactorsFactored(a, |m|);
    SolutionForward(a, f, m, x, |m|);
    SolutionForward(a, f, m, z, |m|);
    assert IsBackward(f, Forward(f, m, |m|), x) && IsBackward(f, Forward(f, m, |m|), z);
    BackwardUnique(f, Forward(f, m, |m|), x, z, 0);
    assert forall i :: 0 <= i < |m| ==> x[i] == At(x, i) && z[i] == At(z, i);
  }

  // ---------------------------------------------------------------------------
  // Positive definite systems have positive pivots
  // ---------------------------------------------------------------------------

  /** Row i's share of x^T A x: the diagonal entry and twice the two entries right of it. */
  function QuadTerm(a: Penta, x: seq<real>, i: int): real {
    QuadRow(At(a.a0, i), At(a.a1, i), At(a.a2, i), At(x, i), At(x, i + 1), At(x, i + 2))
  }

  function QuadRow(a0: real, a1: real, a2: real, x0: real, x1: real, x2: real): real {
    x0 * (a0 * x0 + 2.0 * (a1 * x1) + 2.0 * (a2 * x2))
  }

  /** x^T A x over rows i and below. */
  function QuadFrom(a: Penta, x: seq<real>, i: nat): real
    decreases |x| - i
  {
    if i >= |x| then 0.0 else QuadTerm(a, x, i) + QuadFrom(a, x, i + 1)
  }

  ghost predicate NonzeroVector(x: seq<real>) {
    exists i :: 0 <= i < |x| && x[i] != 0.0
  }

  ghost predicate PositiveDefinite(a: Penta, n: nat) {
    forall x: seq<real> :: |x| == n && NonzeroVector(x) ==> QuadFrom(a, x, 0) > 0.0
  }

  function Sq(u: real): real { u * u }

  /** x^T A x after eliminating columns 0 .. k-1. */
  function Reduced(a: Penta, f: seq<Row>, x: seq<real>, k: nat): real {
    var p, q := RowAt(f, k - 1), RowAt(f, k - 2);
    QuadFrom(a, x, k) - p.d * Sq(p.l1 * At(x, k) + p.l2 * At(x, k + 1)) - q.d * Sq(q.l2 * At(x, k))
  }

  /** Eliminating column k splits off one square. */
  lemma ReducedStep(a: Penta, f: seq<Row>, x: seq<real>, k: nat)
    requires Factored(a, f) && k < |f| && k < |x|
    ensures Reduced(a, f, x, k) == RowAt(f, k).d * Sq(UpperDot(f, x, k)) + Reduced(a, f, x, k + 1)
  {
    var r, p, q := RowAt(f, k), RowAt(f, k - 1), RowAt(f, k - 2);
    assert RowFactored(a, f, k);
    var (x0, x1, x2) := (At(x, k), At(x, k + 1), At(x, k + 2));
    SquareStep(At(a.a0, k), At(a.a1, k), At(a.a2, k), r, p, q, x0, x1, x2);
  }

  lemma SquareStep(a0: real, a1: real, a2: real, r: Row, p: Row, q: Row, x0: real, x1: real, x2: real)
    requires RowEquations(a0, a1, a2, r, p, q)
    ensures QuadRow(a0, a1, a2, x0, x1, x2) - p.d * Sq(p.l1 * x0 + p.l2 * x1) - q.d * Sq(q.l2 * x0)
         == r.d * Sq(x0 + r.l1 * x1 + r.l2 * x2) - r.d * Sq(r.l1 * x1 + r.l2 * x2) - p.d * Sq(p.l2 * x1)
  {
    SquareSplits(r.d, r.l1, r.l2, p.d, p.l1, p.l2, q.d, q.l2, x0, x1, x2);
  }

  lemma SquareSplits(d: real, l1: real, l2: real, pd: real, p1: real, p2: real, qd: real, q2: real,
                     x0: real, x1: real, x2: real)
    ensures x0 * ((d + p1 * (p1 * pd) + q2 * (q2 * qd)) * x0 + 2.0 * ((d * l1 + p2 * (p1 * pd)) * x1)
                  + 2.0 * ((d * l2) * x2))
            - pd * Sq(p1 * x0 + p2 * x1) - qd * Sq(q2 * x0)
         == d * Sq(x0 + l1 * x1 + l2 * x2) - d * Sq(l1 * x1 + l2 * x2) - pd * Sq(p2 * x1)
  {
    SqSum(x0, l1 * x1 + l2 * x2);
    SqSum(p1 * x0, p2 * x1);
    assert x0 + l1 * x1 + l2 * x2 == x0 + (l1 * x1 + l2 * x2);
    assert pd * Sq(p1 * x0) == (p1 * (p1 * pd)) * (x0 * x0);
    assert qd * Sq(q2 * x0) == (q2 * (q2 * qd)) * (x0 * x0);
    assert pd * (2.0 * ((p1 * x0) * (p2 * x1))) == 2.0 * ((p2 * (p1 * pd)) * (x0 * x1));
    assert d * (2.0 * (x0 * (l1 * x1 + l2 * x2))) == 2.0 * ((d * l1) * (x0 * x1)) + 2.0 * ((d * l2) * (x0 * x2));
  }

  lemma SqSum(u: real, v: real)
    ensures Sq(u + v) == Sq(u) + 2.0 * (u * v) + Sq(v)
  {
  }

  lemma UpperDotLocal(f: seq<Row>, x: seq<real>, z: seq<real>, i: int)
    requires |x| == |z| && forall k :: i <= k < |x| && 0 <= k ==> x[k] == z[k]
    ensures UpperDot(f, x, i) == UpperDot(f, z, i)
  {
    assert At(x, i) == At(z, i) && At(x, i + 1) == At(z, i + 1) && At(x, i + 2) == At(z, i + 2);
  }

  /** A vector that is 1 at `j`, 0 behind it, and that L^T maps to 0 at k .. j-1. */
  lemma {:induction false} Probe(f: seq<Row>, n: nat, j: nat, k: nat) returns (x: seq<real>)
    requires k <= j < n
    ensures |x| == n && x[j] == 1.0 && forall i :: j < i < n ==> x[i] == 0.0
    ensures forall i :: k <= i < j ==> UpperDot(f, x, i) == 0.0
    decreases j - k
  {
    if k == j {
      x := seq(n, i => if i == j then 1.0 else 0.0);
    } else {
      var z := Probe(f, n, j, k + 1);
      x := z[k := -(RowAt(f, k).l1 * At(z, k + 1)) - RowAt(f, k).l2 * At(z, k + 2)];
      assert At(x, k + 1) == At(z, k + 1) && At(x, k + 2) == At(z, k + 2);
      assert UpperDot(f, x, k) == 0.0;
      forall i | k < i < j ensures UpperDot(f, x, i) == 0.0 {
        UpperDotLocal(f, x, z, i);
      }
    }
  }

  lemma {:induction false} QuadFromZero(a: Penta, x: seq<real>, k: nat)
    requires forall i :: k <= i < |x| ==> x[i] == 0.0
    ensures QuadFrom(a, x, k) == 0.0
    decreases |x| - k
  {
    if k >= |x| {
    } else {
      QuadFromZero(a, x, k + 1);
      assert At(x, k) == 0.0;
    }
  }

  lemma {:induction false} ReducedConstant(a: Penta, f: seq<Row>, x: seq<real>, k: nat)
    requires Factored(a, f) && k <= |f| && k <= |x|
    requires forall i :: 0 <= i < k ==> UpperDot(f, x, i) == 0.0
    ensures Reduced(a, f, x, 0) == Reduced(a, f, x, k)
  {
    if k == 0 {
    } else {
      ReducedConstant(a, f, x, k - 1);
      ReducedStep(a, f, x, k - 1);
      assert Sq(UpperDot(f, x, k - 1)) == 0.0;
    }
  }

  lemma ReducedAtProbe(a: Penta, f: seq<Row>, x: seq<real>)
    requires |f| < |x| && x[|f|] == 1.0 && forall i :: |f| < i < |x| ==> x[i] == 0.0
    ensures Reduced(a, f, x, |f|) == NextRow(a, f).d
  {
    var j := |f|;
    var p, q := RowAt(f, j - 1), RowAt(f, j - 2);
    QuadFromZero(a, x, j + 1);
    assert At(x, j) == 1.0 && At(x, j + 1) == 0.0 && At(x, j + 2) == 0.0;
    assert QuadTerm(a, x, j) == At(a.a0, j);
    assert p.d * Sq(p.l1 * 1.0 + p.l2 * 0.0) == p.l1 * (p.l1 * p.d);
    assert q.d * Sq(q.l2 * 1.0) == q.l2 * (q.l2 * q.d);
  }

  lemma NextPivotPositive(a: Penta, n: nat, f: seq<Row>)
    requires PositiveDefinite(a, n) && Factored(a, f) && |f| < n
    ensures NextRow(a, f).d > 0.0
  {
    var x := Probe(f, n, |f|, 0);
    assert x[|f|] != 0.0;
    ReducedConstant(a, f, x, |f|);
    ReducedAtProbe(a, f, x);
    assert Reduced(a, f, x, 0) == QuadFrom(a, x, 0);
  }

  /** Every pivot of a positive definite system is positive, so no division in the solver is undefined. */
  lemma {:induction false} PivotsPositive(a: Penta, n: nat, k: nat)
    requires PositiveDefinite(a, n) && k <= n
    ensures PositivePivots(Factors(a, k))
    ensures NonzeroPivots(Factors(a, k))
  {
    if k == 0 {
    } else {
      var f := Factors(a, k - 1);
      PivotsPositive(a, n, k - 1);
      FactorsFactored(a, k - 1);
      NextPivotPositive(a, n, f);
    }
  }


  lemma {:induction false} ReducedDecreases(a: Penta, f: seq<Row>, x: seq<real>, k: nat)
    requires Factored(a, f) && k <= |f| && k <= |x| && PositivePivots(f)
    ensures Reduced(a, f, x, 0) >= Reduced(a, f, x, k)
  {
    if k == 0 {
    } else {
      ReducedDecreases(a, f, x, k - 1);
      ReducedStep(a, f, x, k - 1);
      ScaledSquare(f[k - 1].d, UpperDot(f, x, k - 1));
    }
  }

  lemma ScaledSquare(d: real, u: real)
    requires d > 0.0
    ensures d * Sq(u) >= 0.0 && (u != 0.0 ==> d * Sq(u) > 0.0)
  {
    if u > 0.0 {
      ProductPositive(u, u, Sq(u));
      ProductPositive(d, Sq(u), d * Sq(u));
    } else if u < 0.0 {
      ProductPositive(-u, -u, Sq(-u));
      assert Sq(u) == Sq(-u);
      ProductPositive(d, Sq(u), d * Sq(u));
    }
  }

  lemma ProductPositive(u: real, v: real, r: real)
    requires u > 0.0 && v > 0.0 && r == u * v
    ensures r > 0.0
  {
  }

  lemma {:induction false} LastNonzero(x: seq<real>) returns (k: nat)
    requires NonzeroVector(x)
    ensures k < |x| && x[k] != 0.0 && forall i :: k < i < |x| ==> x[i] == 0.0
  {
    if x[|x| - 1] != 0.0 {
      k := |x| - 1;
    } else {
      var i :| 0 <= i < |x| && x[i] != 0.0;
      assert x[..|x| - 1][i] != 0.0;
      k := LastNonzero(x[..|x| - 1]);
      assert forall i :: k < i < |x| - 1 ==> x[i] == x[..|x| - 1][i];
    }
  }

  lemma QuadPositive(a: Penta, f: seq<Row>, x: seq<real>)
    requires Factored(a, f) && |f| == |x| && NonzeroVector(x) && PositivePivots(f)
    ensures QuadFrom(a, x, 0) > 0.0
  {
    var k := LastNonzero(x);
    ReducedDecreases(a, f, x, k);
    ReducedStep(a, f, x, k);
    assert At(x, k + 1) == 0.0 && At(x, k + 2) == 0.0;
    assert UpperDot(f, x, k) == x[k];
    ScaledSquare(f[k].d, UpperDot(f, x, k));
    QuadFromZero(a, x, k + 1);
    assert Reduced(a, f, x, k + 1) == 0.0;
    assert Reduced(a, f, x, 0) == QuadFrom(a, x, 0);
  }

  /** A system is positive definite exactly if the solver's pivots are all positive. */
  lemma PositiveDefiniteIffPivots(a: Penta, n: nat)
    ensures PositiveDefinite(a, n) <==> PositivePivots(Factors(a, n))
  {
    if PositiveDefinite(a, n) {
      PivotsPositive(a, n, n);
    } else if PositivePivots(Factors(a, n)) {
      FactorsFactored(a, n);
      forall x: seq<real> | |x| == n && NonzeroVector(x) ensures QuadFrom(a, x, 0) > 0.0 {
        QuadPositive(a, Factors(a, n), x);
      }
    }
  }

  // ---------------------------------------------------------------------------
  // The in-place solver
  // ---------------------------------------------------------------------------

  /** The system held in the first `n` cells of the band arrays. */
  ghost function Bands(diag0: array<real>, diag1: array<real>, diag2: array<real>, n: nat): Penta
    requires 3 < n <= diag0.Length && n <= diag1.Length && n <= diag2.Length
    reads diag0, diag1, diag2
  {
    Penta(diag0[..n], diag1[..n - 1], diag2[..n - 2])
  }

  /** The bands hold the factors `f` in their first |f| columns and the bands of `a` from there on. */
  ghost predicate Holds(a: Penta, n: nat, f: seq<Row>, d0: seq<real>, d1: seq<real>, d2: seq<real>, inv: seq<real>) {
    && |f| <= n && n <= |d0| && n <= |d1| && n <= |d2| && n <= |inv|
    && (forall i :: 0 <= i < |f| ==> d0[i] == f[i].d && inv[i] == Quotient(1.0, f[i].d))
    && (forall i :: 0 <= i < |f| && i < n - 1 ==> d1[i] == f[i].l1)
    && (forall i :: 0 <= i < |f| && i < n - 2 ==> d2[i] == f[i].l2)
    && (forall i :: |f| <= i < n ==> d0[i] == At(a.a0, i))
    && (forall i :: |f| <= i < n - 1 ==> d1[i] == At(a.a1, i))
    && (forall i :: |f| <= i < n - 2 ==> d2[i] == At(a.a2, i))
  }

  lemma TimesInverse(e: real, d: real)
    requires d != 0.0
    ensures e * (1.0 / d) == Quotient(e, d)
  {
  }

  function PivotOf(a0: real, p: Row, q: Row): real {
    a0 - p.l1 * (p.l1 * p.d) - q.l2 * (q.l2 * q.d)
  }

  function OffPivot(a1: real, p: Row): real {
    a1 - p.l2 * (p.l1 * p.d)
  }

  ghost predicate DistinctBands(diag0: array<real>, diag1: array<real>, diag2: array<real>, invdiag0: array<real>) {
    diag0 != diag1 && diag0 != diag2 && diag0 != invdiag0 && diag1 != diag2 && diag1 != invdiag0 && diag2 != invdiag0
  }

  /** Updates row `j` in place; `p` and `q` name the two rows above it. */
  method EliminateRow(diag0: array<real>, diag1: array<real>, diag2: array<real>, invdiag0: array<real>,
                      n: nat, j: nat, ghost p: Row, ghost q: Row)
    requires 3 < n <= diag0.Length && n <= diag1.Length && n <= diag2.Length && n <= invdiag0.Length && 1 <= j < n
    requires DistinctBands(diag0, diag1, diag2, invdiag0)
    requires diag0[j - 1] == p.d && diag1[j - 1] == p.l1 && (j < n - 1 ==> diag2[j - 1] == p.l2)
    requires if j > 1 then diag0[j - 2] == q.d && diag2[j - 2] == q.l2 else q == Row(0.0, 0.0, 0.0)
    requires PivotOf(diag0[j], p, q) != 0.0
    modifies diag0, diag1, diag2, invdiag0
    ensures diag0[j] == PivotOf(old(diag0[j]), p, q) && invdiag0[j] == Quotient(1.0, diag0[j])
    ensures j < n - 1 ==> diag1[j] == Quotient(OffPivot(old(diag1[j]), p), diag0[j])
    ensures j < n - 2 ==> diag2[j] == Quotient(old(diag2[j]), diag0[j])
    ensures forall i :: 0 <= i < n && i != j ==> diag0[i] == old(diag0[i]) && invdiag0[i] == old(invdiag0[i])
    ensures forall i :: 0 <= i < n && i != j ==> diag1[i] == old(diag1[i]) && diag2[i] == old(diag2[i])
  {
    var v1 := diag1[j - 1] * diag0[j - 1];
    diag0[j] := diag0[j] - diag1[j - 1] * v1;
    if j > 1 {
      var v2 := diag2[j - 2] * diag0[j - 2];
      diag0[j] := diag0[j] - diag2[j - 2] * v2;
    }
    assert diag0[j] == PivotOf(old(diag0[j]), p, q);
    invdiag0[j] := 1.0 / diag0[j];
    if j < n - 1 {
      var h := diag2[j - 1] * v1;
      assert diag1[j] - h == OffPivot(diag1[j], p);
      TimesInverse(diag1[j] - h, diag0[j]);
      diag1[j] := (diag1[j] - h) * invdiag0[j];
    }
    if j < n - 2 {
      TimesInverse(diag2[j], diag0[j]);
      diag2[j] := diag2[j] * invdiag0[j];
    }
  }

  lemma {:induction false} ForwardPrefix(f: seq<Row>, g: seq<Row>, m: seq<real>, k: nat)
    requires f <= g && k <= |f| + 1
    ensures Forward(f, m, k) == Forward(g, m, k)
  {
    if k == 0 {
    } else {
      ForwardPrefix(f, g, m, k - 1);
      var y := Forward(f, m, k - 1);
      assert RowAt(f, |y| - 1) == RowAt(g, |y| - 1) && RowAt(f, |y| - 2) == RowAt(g, |y| - 2);
      assert NextForward(f, m, y) == NextForward(g, m, y);
    }
  }

  lemma HoldsStep(a: Penta, n: nat, f: seq<Row>, d0: seq<real>, d1: seq<real>, d2: seq<real>, inv: seq<real>,
                  e0: seq<real>, e1: seq<real>, e2: seq<real>, einv: seq<real>)
    requires Holds(a, n, f, d0, d1, d2, inv) && |f| < n
    requires n <= |e0| && n <= |e1| && n <= |e2| && n <= |einv|
    requires var (j, r) := (|f|, NextRow(a, f));
             && e0[j] == r.d && einv[j] == Quotient(1.0, r.d)
             && (j < n - 1 ==> e1[j] == r.l1) && (j < n - 2 ==> e2[j] == r.l2)
             && (forall i :: 0 <= i < n && i != j ==> e0[i] == d0[i] && einv[i] == inv[i])
             && (forall i :: 0 <= i < n && i != j ==> e1[i] == d1[i] && e2[i] == d2[i])
    ensures Holds(a, n, f + [NextRow(a, f)], e0, e1, e2, einv)
  {
  }

  ghost predicate Distinct(diag0: array<real>, diag1: array<real>, diag2: array<real>, wum: array<real>,
                           invdiag0: array<real>) {
    DistinctBands(diag0, diag1, diag2, invdiag0) && wum != diag0 && wum != diag1 && wum != diag2 && wum != invdiag0
  }

  /** `wum[j]` of the forward substitution, from the rows above. */
  method ForwardRow(diag1: array<real>, diag2: array<real>, wum: array<real>, n: nat, j: nat,
                    ghost a: Penta, ghost f: seq<Row>, ghost m: seq<real>)
    requires 1 <= j == |f| < n && n <= diag1.Length && n <= diag2.Length && n <= wum.Length
    requires wum != diag1 && wum != diag2
    requires diag1[j - 1] == f[j - 1].l1 && (j > 1 ==> diag2[j - 2] == f[j - 2].l2)
    requires wum[..j] == Forward(f, m, j) && wum[j] == At(m, j)
    modifies wum
    ensures wum[..j + 1] == Forward(f + [NextRow(a, f)], m, j + 1)
    ensures forall i :: j < i < wum.Length ==> wum[i] == old(wum[i])
  {
    ghost var y := wum[..j];
    assert wum[j - 1] == y[j - 1] && (j > 1 ==> wum[j - 2] == y[j - 2]);
    wum[j] := wum[j] - diag1[j - 1] * wum[j - 1];
    if j > 1 {
      wum[j] := wum[j] - diag2[j - 2] * wum[j - 2];
    }
    assert wum[j] == NextForward(f, m, y);
    assert wum[..j + 1] == y + [wum[j]];
    ForwardPrefix(f, f + [NextRow(a, f)], m, j + 1);
  }

  method FirstRow(diag0: array<real>, diag1: array<real>, diag2: array<real>, invdiag0: array<real>, n: nat,
                  ghost a: Penta)
    requires 3 < n <= diag0.Length && n <= diag1.Length && n <= diag2.Length && n <= invdiag0.Length
    requires DistinctBands(diag0, diag1, diag2, invdiag0)
    requires Holds(a, n, [], diag0[..], diag1[..], diag2[..], invdiag0[..]) && NextRow(a, []).d != 0.0
    modifies diag1, diag2, invdiag0
    ensures Holds(a, n, Factors(a, 1), diag0[..], diag1[..], diag2[..], invdiag0[..])
  {
    ghost var d0, d1, d2, inv := diag0[..], diag1[..], diag2[..], invdiag0[..];
    invdiag0[0] := 1.0 / diag0[0];
    TimesInverse(diag1[0], diag0[0]);
    TimesInverse(diag2[0], diag0[0]);
    diag1[0] := diag1[0] * invdiag0[0];
    diag2[0] := diag2[0] * invdiag0[0];
    HoldsStep(a, n, [], d0, d1, d2, inv, diag0[..], diag1[..], diag2[..], invdiag0[..]);
    assert Factors(a, 1) == Factors(a, 0) + [NextRow(a, [])];
  }

  /** What `Holds` says about row `j` and the two rows above it. */
  lemma HoldsRow(a: Penta, n: nat, f: seq<Row>, d0: seq<real>, d1: seq<real>, d2: seq<real>, inv: seq<real>)
    requires 3 < n && Holds(a, n, f, d0, d1, d2, inv) && 1 <= |f| < n
    ensures var (j, p, q) := (|f|, RowAt(f, |f| - 1), RowAt(f, |f| - 2));
            && d0[j - 1] == p.d && d1[j - 1] == p.l1 && (j < n - 1 ==> d2[j - 1] == p.l2)
            && (if j > 1 then d0[j - 2] == q.d && d2[j - 2] == q.l2 else q == Row(0.0, 0.0, 0.0))
            && PivotOf(d0[j], p, q) == NextRow(a, f).d
            && (j < n - 1 ==> Quotient(OffPivot(d1[j], p), NextRow(a, f).d) == NextRow(a, f).l1)
            && (j < n - 2 ==> Quotient(d2[j], NextRow(a, f).d) == NextRow(a, f).l2)
  {
  }

  method FactorRow(diag0: array<real>, diag1: array<real>, diag2: array<real>, invdiag0: array<real>, n: nat, j: nat,
                   ghost a: Penta, ghost f: seq<Row>)
    requires 3 < n <= diag0.Length && n <= diag1.Length && n <= diag2.Length && n <= invdiag0.Length
    requires DistinctBands(diag0, diag1, diag2, invdiag0)
    requires 1 <= j == |f| < n && Holds(a, n, f, diag0[..], diag1[..], diag2[..], invdiag0[..])
    requires NextRow(a, f).d != 0.0
    modifies diag0, diag1, diag2, invdiag0
    ensures Holds(a, n, f + [NextRow(a, f)], diag0[..], diag1[..], diag2[..], invdiag0[..])
  {
    ghost var d0, d1, d2, inv := diag0[..], diag1[..], diag2[..], invdiag0[..];
    HoldsRow(a, n, f, d0, d1, d2, inv);
    EliminateRow(diag0, diag1, diag2, invdiag0, n, j, RowAt(f, j - 1), RowAt(f, j - 2));
    HoldsStep(a, n, f, d0, d1, d2, inv, diag0[..], diag1[..], diag2[..], invdiag0[..]);
  }

  lemma NextPivotNonzero(a: Penta, n: nat, j: nat)
    requires NonzeroPivots(Factors(a, n)) && j < n
    ensures NextRow(a, Factors(a, j)).d != 0.0
  {
    FactorsPrefix(a, n, j + 1);
    assert Factors(a, n)[..j + 1][j] == Factors(a, j + 1)[j];
  }

  lemma HoldsNone(d0: seq<real>, d1: seq<real>, d2: seq<real>, inv: seq<real>, n: nat)
    requires 3 < n <= |d0| && n <= |d1| && n <= |d2| && n <= |inv|
    ensures Holds(Penta(d0[..n], d1[..n - 1], d2[..n - 2]), n, [], d0, d1, d2, inv)
  {
  }

  /** The first `j` columns are factored, the first `j` entries of the right-hand side substituted. */
  ghost predicate Eliminated(a: Penta, m: seq<real>, n: nat, j: nat, d0: seq<real>, d1: seq<real>, d2: seq<real>,
                             inv: seq<real>, w: seq<real>) {
    && Holds(a, n, Factors(a, j), d0, d1, d2, inv)
    && j <= n <= |w| && w[..j] == Forward(Factors(a, j), m, j) && n <= |m| && forall i :: j <= i < n ==> w[i] == m[i]
  }

  lemma FirstEntry(a: Penta, m: seq<real>, n: nat, d0: seq<real>, d1: seq<real>, d2: seq<real>, inv: seq<real>,
                   w: seq<real>)
    requires 1 <= n == |m| && n <= |w| && w[..n] == m && Holds(a, n, Factors(a, 1), d0, d1, d2, inv)
    ensures Eliminated(a, m, n, 1, d0, d1, d2, inv, w)
  {
    hide Holds, Factors;
    assert NextForward(Factors(a, 1), m, []) == m[0];
    assert w[..1] == Forward(Factors(a, 1), m, 0) + [m[0]];
    forall i | 1 <= i < n ensures w[i] == m[i] {
      assert w[i] == w[..n][i];
    }
  }

  /** What `Holds` says about the multipliers of the row above. */
  lemma HoldsAbove(a: Penta, n: nat, f: seq<Row>, d0: seq<real>, d1: seq<real>, d2: seq<real>, inv: seq<real>)
    requires 3 < n && Holds(a, n, f, d0, d1, d2, inv) && 1 <= |f| < n
    ensures d1[|f| - 1] == f[|f| - 1].l1 && (|f| > 1 ==> d2[|f| - 2] == f[|f| - 2].l2)
  {
  }

  lemma AllEliminated(a: Penta, m: seq<real>, n: nat, d0: seq<real>, d1: seq<real>, d2: seq<real>, inv: seq<real>,
                      w: seq<real>)
    requires Eliminated(a, m, n, n, d0, d1, d2, inv, w)
    ensures n <= |w| && Holds(a, n, Factors(a, n), d0, d1, d2, inv) && w[..n] == Forward(Factors(a, n), m, n)
  {
  }

  /** What comes before the first loop. */
  method FirstColumn(diag0: array<real>, diag1: array<real>, diag2: array<real>, wum: array<real>,
                     invdiag0: array<real>, n: nat, ghost a: Penta, ghost m: seq<real>)
    requires 3 < n <= diag0.Length && n <= diag1.Length && n <= diag2.Length && n <= wum.Length && n <= invdiag0.Length
    requires Distinct(diag0, diag1, diag2, wum, invdiag0) && NonzeroPivots(Factors(a, n))
    requires a == Bands(diag0, diag1, diag2, n) && m == wum[..n]
    modifies diag1, diag2, invdiag0
    ensures Eliminated(a, m, n, 1, diag0[..], diag1[..], diag2[..], invdiag0[..], wum[..])
  {
    NextPivotNonzero(a, n, 0);
    HoldsNone(diag0[..], diag1[..], diag2[..], invdiag0[..], n);
    assert Factors(a, 0) == [] && wum[..][..n] == wum[..n];
    assert a == Penta(diag0[..][..n], diag1[..][..n - 1], diag2[..][..n - 2]);
    hide Holds, Factors, Forward, NextRow, NonzeroPivots, Bands, Eliminated;
    FirstRow(diag0, diag1, diag2, invdiag0, n, a);
    FirstEntry(a, m, n, diag0[..], diag1[..], diag2[..], invdiag0[..], wum[..]);
  }

  /** One iteration of the first loop. */
  method EliminateColumn(diag0: array<real>, diag1: array<real>, diag2: array<real>, wum: array<real>,
                         invdiag0: array<real>, n: nat, j: nat, ghost a: Penta, ghost m: seq<real>)
    requires 3 < n <= diag0.Length && n <= diag1.Length && n <= diag2.Length && n <= wum.Length && n <= invdiag0.Length
    requires Distinct(diag0, diag1, diag2, wum, invdiag0) && 1 <= j < n == |m| && NonzeroPivots(Factors(a, n))
    requires Eliminated(a, m, n, j, diag0[..], diag1[..], diag2[..], invdiag0[..], wum[..])
    modifies diag0, diag1, diag2, wum, invdiag0
    ensures Eliminated(a, m, n, j + 1, diag0[..], diag1[..], diag2[..], invdiag0[..], wum[..])
  {
    ghost var f := Factors(a, j);
    NextPivotNonzero(a, n, j);
    HoldsAbove(a, n, f, diag0[..], diag1[..], diag2[..], invdiag0[..]);
    assert Factors(a, j + 1) == f + [NextRow(a, f)] && wum[..][..j] == wum[..j];
    hide Holds, NextRow, Forward, Factors, NonzeroPivots;
    ForwardRow(diag1, diag2, wum, n, j, a, f, m);
    FactorRow(diag0, diag1, diag2, invdiag0, n, j, a, f);
    assert wum[..][..j + 1] == wum[..j + 1];
  }

  /** LDL factorisation with forward substitution (first loop of `invMatrix`). */
  method FactorAndForward(diag0: array<real>, diag1: array<real>, diag2: array<real>, wum: array<real>,
                          invdiag0: array<real>, n: nat)
    requires 3 < n <= diag0.Length && n <= diag1.Length && n <= diag2.Length && n <= wum.Length && n <= invdiag0.Length
    requires Distinct(diag0, diag1, diag2, wum, invdiag0)
    requires NonzeroPivots(Factors(Bands(diag0, diag1, diag2, n), n))
    modifies diag0, diag1, diag2, wum, invdiag0
    ensures var a := old(Bands(diag0, diag1, diag2, n));
            && Holds(a, n, Factors(a, n), diag0[..], diag1[..], diag2[..], invdiag0[..])
            && wum[..n] == Forward(Factors(a, n), old(wum[..n]), n)
  {
    ghost var a, m := Bands(diag0, diag1, diag2, n), wum[..n];
    hide *;
    FirstColumn(diag0, diag1, diag2, wum, invdiag0, n, a, m);
    for j := 1 to n
      invariant Eliminated(a, m, n, j, diag0[..], diag1[..], diag2[..], invdiag0[..], wum[..])
    {
      EliminateColumn(diag0, diag1, diag2, wum, invdiag0, n, j, a, m);
    }
    AllEliminated(a, m, n, diag0[..], diag1[..], diag2[..], invdiag0[..], wum[..]);
    assert wum[..][..n] == wum[..n];
  }

  /** Divides every entry by its pivot (second loop). */
  method DivideByPivots(wum: array<real>, invdiag0: array<real>, n: nat, ghost f: seq<Row>)
    requires n == |f| && n <= wum.Length && n <= invdiag0.Length && wum != invdiag0
    requires forall i :: 0 <= i < n ==> invdiag0[i] == Quotient(1.0, f[i].d)
    requires NonzeroPivots(f)
    modifies wum
    ensures forall i :: 0 <= i < n ==> wum[i] == Quotient(old(wum[i]), f[i].d)
  {
    for j := 0 to n
      invariant forall i :: 0 <= i < j ==> wum[i] == Quotient(old(wum[i]), f[i].d)
      invariant forall i :: j <= i < n ==> wum[i] == old(wum[i])
    {
      TimesInverse(wum[j], f[j].d);
      wum[j] := wum[j] * invdiag0[j];
    }
  }

  method BackRow(diag1: array<real>, diag2: array<real>, wum: array<real>, n: nat, j: nat, ghost f: seq<Row>)
    requires 3 < n == |f| && n <= diag1.Length && n <= diag2.Length && n <= wum.Length && wum != diag1 && wum != diag2
    requires j < n - 1 && diag1[j] == f[j].l1 && (j < n - 2 ==> diag2[j] == f[j].l2)
    modifies wum
    ensures UpperDot(f, wum[..n], j) == old(wum[j])
    ensures forall i :: 0 <= i < wum.Length && i != j ==> wum[i] == old(wum[i])
  {
    wum[j] := wum[j] - diag1[j] * wum[j + 1];
    if j < n - 2 {
      wum[j] := wum[j] - diag2[j] * wum[j + 2];
    }
  }

  /** Backward substitution (third loop). */
  method BackSubstitute(diag1: array<real>, diag2: array<real>, wum: array<real>, n: nat, ghost f: seq<Row>)
    requires 3 < n == |f| && n <= diag1.Length && n <= diag2.Length && n <= wum.Length && wum != diag1 && wum != diag2
    requires forall i :: 0 <= i < n - 1 ==> diag1[i] == f[i].l1
    requires forall i :: 0 <= i < n - 2 ==> diag2[i] == f[i].l2
    modifies wum
    ensures forall j :: 0 <= j < n ==> UpperDot(f, wum[..n], j) == old(wum[j])
  {
    ghost var z := wum[..n];
    var j := n - 1;
    while j > 0
      invariant 0 <= j < n
      invariant forall i :: 0 <= i < j ==> wum[i] == z[i]
      invariant forall i :: j <= i < n ==> UpperDot(f, wum[..n], i) == z[i]
    {
      j := j - 1;
      ghost var before := wum[..n];
      BackRow(diag1, diag2, wum, n, j, f);
      forall i | j < i < n ensures UpperDot(f, wum[..n], i) == z[i] {
        UpperDotLocal(f, wum[..n], before, i);
      }
    }
  }

  lemma DividedIsBackward(f: seq<Row>, y: seq<real>, x: seq<real>)
    requires NonzeroPivots(f) && |f| == |y| == |x|
    requires forall j :: 0 <= j < |x| ==> UpperDot(f, x, j) == Quotient(y[j], f[j].d)
    ensures IsBackward(f, y, x)
  {
    forall j | 0 <= j < |x| ensures DiagUpperDot(f, x, j) == y[j] {
      QuotientTimes(y[j], f[j].d);
    }
  }

  /** `invMatrix`: leaves in the first `n` cells of `wum` the only x with A x = the original `wum`. */
  method InvMatrix(diag0: array<real>, diag1: array<real>, diag2: array<real>, wum: array<real>,
                   invdiag0: array<real>, n: nat)
    requires 3 < n <= diag0.Length && n <= diag1.Length && n <= diag2.Length && n <= wum.Length && n <= invdiag0.Length
    requires Distinct(diag0, diag1, diag2, wum, invdiag0)
    requires NonzeroPivots(Factors(Bands(diag0, diag1, diag2, n), n))
    modifies diag0, diag1, diag2, wum, invdiag0
    ensures IsSolution(old(Bands(diag0, diag1, diag2, n)), old(wum[..n]), wum[..n])
    ensures forall x :: IsSolution(old(Bands(diag0, diag1, diag2, n)), old(wum[..n]), x) ==> x == wum[..n]
  {
    ghost var a, m := Bands(diag0, diag1, diag2, n), wum[..n];
    ghost var f := Factors(a, n);
    FactorAndForward(diag0, diag1, diag2, wum, invdiag0, n);
    DivideByPivots(wum, invdiag0, n, f);
    BackSubstitute(diag1, diag2, wum, n, f);
    DividedIsBackward(f, Forward(f, m, n), wum[..n]);
    FactorsFactored(a, n);
    SubstitutionSolves(a, f, m, wum[..n]);
    forall x | IsSolution(a, m, x) ensures x == wum[..n] {
      SolutionUnique(a, m, x, wum[..n]);
    }
  }
}
