/**
 The normal equations of the cepstral smoother (pico/lib/picocep.c, `makeWUWandWUm`): the bands of
 W^T U W and the vector W^T U m, where W stacks the static window (1), the delta window (-1/2, 0, 1/2) and
 the delta-delta window (1, -2, 1), and U holds the inverse variances.
 */
module SmoothingBands {
  import opened Powers
  import opened PentaSolver

  /** One pdf entry; `mean` is stored already multiplied by its inverse variance. */
  datatype Gaussian = Gaussian(mean: int, ivar: int)
  datatype PdfVector = PdfVector(level: Gaussian, delta: Gaussian, delta2: Gaussian)

  // ---------------------------------------------------------------------------
  // The matrices, from the windows
  // ---------------------------------------------------------------------------

  /** Entry (t, i) of the static window. */
  function Window0(t: int, i: int): int { if i == t then 1 else 0 }

  /** Twice entry (t, i) of the delta window; only frames 1 .. n-2 have a delta row. */
  function Window1(n: int, t: int, i: int): int {
    if 1 <= t <= n - 2 && i == t + 1 then 1 else if 1 <= t <= n - 2 && i == t - 1 then -1 else 0
  }

  /** Entry (t, i) of the delta-delta window; only frames 1 .. n-2 have a delta-delta row. */
  function Window2(n: int, t: int, i: int): int {
    if !(1 <= t <= n - 2) then 0 else if i == t then -2 else if i == t - 1 || i == t + 1 then 1 else 0
  }

  /** The share of the three rows of frame `t` in 4 (W^T U W)(i, j). */
  function QuadShare(fr: seq<PdfVector>, t: int, i: int, j: int): int
    requires 0 <= t < |fr|
  {
    4 * (Window0(t, i) * Window0(t, j)) * fr[t].level.ivar
    + (Window1(|fr|, t, i) * Window1(|fr|, t, j)) * fr[t].delta.ivar
    + 4 * (Window2(|fr|, t, i) * Window2(|fr|, t, j)) * fr[t].delta2.ivar
  }

  /** The share of the three rows of frame `t` in 2 (W^T U m)(i). */
  function MeanShare(fr: seq<PdfVector>, t: int, i: int): int
    requires 0 <= t < |fr|
  {
    2 * Window0(t, i) * fr[t].level.mean + Window1(|fr|, t, i) * fr[t].delta.mean
    + 2 * Window2(|fr|, t, i) * fr[t].delta2.mean
  }

  /** 4 (W^T U W)(i, j), summed over the rows of frames 0 .. k-1. */
  function Quad(fr: seq<PdfVector>, i: int, j: int, k: nat): int
    requires k <= |fr|
  {
    if k == 0 then 0 else Quad(fr, i, j, k - 1) + QuadShare(fr, k - 1, i, j)
  }

  /** 2 (W^T U m)(i), summed over the rows of frames 0 .. k-1. */
  function Mean(fr: seq<PdfVector>, i: int, k: nat): int
    requires k <= |fr|
  {
    if k == 0 then 0 else Mean(fr, i, k - 1) + MeanShare(fr, k - 1, i)
  }

  // ---------------------------------------------------------------------------
  // Closed forms
  // ---------------------------------------------------------------------------

  const NO_ROW: PdfVector := PdfVector(Gaussian(0, 0), Gaussian(0, 0), Gaussian(0, 0))

  /** The dynamic rows of frame `t`, or zeros where there are none. */
  function Dyn(fr: seq<PdfVector>, t: int): PdfVector {
    if 1 <= t <= |fr| - 2 then fr[t] else NO_ROW
  }

  function DiagSum(fr: seq<PdfVector>, i: int): int
    requires 0 <= i < |fr|
  {
    4 * fr[i].level.ivar + Dyn(fr, i - 1).delta.ivar + Dyn(fr, i + 1).delta.ivar
    + 4 * Dyn(fr, i - 1).delta2.ivar + 16 * Dyn(fr, i).delta2.ivar + 4 * Dyn(fr, i + 1).delta2.ivar
  }

  function MeanSum(fr: seq<PdfVector>, i: int): int
    requires 0 <= i < |fr|
  {
    2 * fr[i].level.mean + Dyn(fr, i - 1).delta.mean - Dyn(fr, i + 1).delta.mean
    + 2 * Dyn(fr, i - 1).delta2.mean - 4 * Dyn(fr, i).delta2.mean + 2 * Dyn(fr, i + 1).delta2.mean
  }

  lemma {:induction false} QuadLocal(fr: seq<PdfVector>, i: int, j: int, k: nat)
    requires 0 <= i < |fr| && 0 <= j < |fr| && k <= |fr|
    ensures Quad(fr, i, j, k)
         == (if 0 <= i - 1 < k then QuadShare(fr, i - 1, i, j) else 0) + (if i < k then QuadShare(fr, i, i, j) else 0)
            + (if i + 1 < k then QuadShare(fr, i + 1, i, j) else 0)
  {
    if k == 0 {
    } else {
      QuadLocal(fr, i, j, k - 1);
      if k - 1 < i - 1 || i + 1 < k - 1 {
        assert QuadShare(fr, k - 1, i, j) == 0;
      }
    }
  }

  lemma {:induction false} MeanLocal(fr: seq<PdfVector>, i: int, k: nat)
    requires 0 <= i < |fr| && k <= |fr|
    ensures Mean(fr, i, k)
         == (if 0 <= i - 1 < k then MeanShare(fr, i - 1, i) else 0) + (if i < k then MeanShare(fr, i, i) else 0)
            + (if i + 1 < k then MeanShare(fr, i + 1, i) else 0)
  {
    if k == 0 {
    } else {
      MeanLocal(fr, i, k - 1);
    }
  }

  lemma DiagShares(fr: seq<PdfVector>, i: int)
    requires 0 <= i < |fr|
    ensures QuadShare(fr, i, i, i) == 4 * fr[i].level.ivar + 16 * Dyn(fr, i).delta2.ivar
    ensures i > 0 ==> QuadShare(fr, i - 1, i, i) == Dyn(fr, i - 1).delta.ivar + 4 * Dyn(fr, i - 1).delta2.ivar
    ensures i + 1 < |fr| ==> QuadShare(fr, i + 1, i, i) == Dyn(fr, i + 1).delta.ivar + 4 * Dyn(fr, i + 1).delta2.ivar
  {
  }

  lemma OffShares(fr: seq<PdfVector>, i: int)
    requires 0 <= i < i + 1 < |fr|
    ensures i > 0 ==> QuadShare(fr, i - 1, i, i + 1) == 0
    ensures QuadShare(fr, i, i, i + 1) == -8 * Dyn(fr, i).delta2.ivar
    ensures QuadShare(fr, i + 1, i, i + 1) == -8 * Dyn(fr, i + 1).delta2.ivar
  {
  }

  lemma OuterShares(fr: seq<PdfVector>, i: int, j: int)
    requires 0 <= i < i + 2 <= j < |fr|
    ensures i > 0 ==> QuadShare(fr, i - 1, i, j) == 0
    ensures QuadShare(fr, i, i, j) == 0
    ensures QuadShare(fr, i + 1, i, j) == if j == i + 2 then 4 * fr[i + 1].delta2.ivar - fr[i + 1].delta.ivar else 0
  {
  }

  /** W^T U W has five bands, with these entries. */
  lemma QuadBands(fr: seq<PdfVector>, i: int)
    requires 0 <= i < |fr|
    ensures Quad(fr, i, i, |fr|) == DiagSum(fr, i)
    ensures i + 1 < |fr| ==> Quad(fr, i, i + 1, |fr|) == -8 * (Dyn(fr, i).delta2.ivar + Dyn(fr, i + 1).delta2.ivar)
    ensures i + 2 < |fr| ==> Quad(fr, i, i + 2, |fr|) == 4 * fr[i + 1].delta2.ivar - fr[i + 1].delta.ivar
    ensures forall j :: i + 2 < j < |fr| ==> Quad(fr, i, j, |fr|) == 0
  {
    QuadLocal(fr, i, i, |fr|);
    DiagShares(fr, i);
    if i + 1 < |fr| {
      QuadLocal(fr, i, i + 1, |fr|);
      OffShares(fr, i);
    }
    forall j | i + 2 <= j < |fr|
      ensures Quad(fr, i, j, |fr|) == if j == i + 2 then 4 * fr[i + 1].delta2.ivar - fr[i + 1].delta.ivar else 0
    {
      QuadLocal(fr, i, j, |fr|);
      OuterShares(fr, i, j);
    }
  }

  /** W^T U m has these entries. */
  lemma MeanVector(fr: seq<PdfVector>, i: int)
    requires 0 <= i < |fr|
    ensures Mean(fr, i, |fr|) == MeanSum(fr, i)
  {
    MeanLocal(fr, i, |fr|);
  }

  /** W^T U W is symmetric, so the bands on one side say everything. */
  lemma {:induction false} QuadSymmetric(fr: seq<PdfVector>, i: int, j: int, k: nat)
    requires k <= |fr|
    ensures Quad(fr, i, j, k) == Quad(fr, j, i, k)
  {
    if k == 0 {
    } else {
      QuadSymmetric(fr, i, j, k - 1);
    }
  }

  // ---------------------------------------------------------------------------
  // The bands as the program rounds them
  // ---------------------------------------------------------------------------

  function Band0(fr: seq<PdfVector>, i: int): int
    requires 0 <= i < |fr|
  {
    CDiv(Quad(fr, i, i, |fr|) + 2, 4)
  }

  function Band1(fr: seq<PdfVector>, i: int): int {
    -2 * (Dyn(fr, i).delta2.ivar + Dyn(fr, i + 1).delta2.ivar)
  }

  function Band2(fr: seq<PdfVector>, i: int): int {
    Dyn(fr, i + 1).delta2.ivar - CDiv(Dyn(fr, i + 1).delta.ivar + 2, 4)
  }

  function Rhs(fr: seq<PdfVector>, i: int): int
    requires 0 <= i < |fr|
  {
    CDiv(Mean(fr, i, |fr|) + 1, 2)
  }

  /** The pdf vectors of the `n` frames that start at `b`. */
  function Frames(pdf: seq<PdfVector>, indices: seq<nat>, b: nat, n: nat): (fr: seq<PdfVector>)
    requires b + n <= |indices| && forall k :: b <= k < b + n ==> indices[k] < |pdf|
    ensures |fr| == n && forall i :: 0 <= i < n ==> fr[i] == pdf[indices[b + i]]
  {
    seq(n, i requires 0 <= i < n => pdf[indices[b + i]])
  }

  /** Sum of `c[j] * v[j]` for the first `k` terms. */
  function Dot(c: seq<int>, v: seq<int>, k: nat): int
    requires k <= |c| && k <= |v|
  {
    if k == 0 then 0 else Dot(c, v, k - 1) + c[k - 1] * v[k - 1]
  }

  /** The inverse variances and means of the rows that `id` and `idd` name. */
  function IvarsAt(fr: seq<PdfVector>, id: seq<nat>, idd: seq<nat>): seq<int>
    requires forall j :: j in id || j in idd ==> j < |fr|
  {
    seq(|id|, j requires 0 <= j < |id| => assert id[j] in id; fr[id[j]].delta.ivar)
    + seq(|idd|, j requires 0 <= j < |idd| => assert idd[j] in idd; fr[idd[j]].delta2.ivar)
  }

  function MeansAt(fr: seq<PdfVector>, id: seq<nat>, idd: seq<nat>): seq<int>
    requires forall j :: j in id || j in idd ==> j < |fr|
  {
    seq(|id|, j requires 0 <= j < |id| => assert id[j] in id; fr[id[j]].delta.mean)
    + seq(|idd|, j requires 0 <= j < |idd| => assert idd[j] in idd; fr[idd[j]].delta2.mean)
  }

  /** Adds the dynamic rows to the diagonal and to the right-hand side of one frame. */
  method AddDynamic(pdf: seq<PdfVector>, indices: seq<nat>, b: nat, n: nat, diag: int, wum: int,
                    x: seq<int>, xsq: seq<int>, id: seq<nat>, idd: seq<nat>) returns (diag': int, wum': int)
    requires b + n <= |indices| && forall k :: b <= k < b + n ==> indices[k] < |pdf|
    requires forall j :: j in id || j in idd ==> j < n
    requires |x| == |xsq| == |id| + |idd|
    ensures diag' == diag + Dot(xsq, IvarsAt(Frames(pdf, indices, b, n), id, idd), |x|)
    ensures wum' == wum + Dot(x, MeansAt(Frames(pdf, indices, b, n), id, idd), |x|)
  {
    ghost var fr := Frames(pdf, indices, b, n);
    var numd, numdd := |id|, |idd|;
    diag', wum' := diag, wum;
    for j := 0 to numd
      invariant diag' == diag + Dot(xsq, IvarsAt(fr, id, idd), j)
      invariant wum' == wum + Dot(x, MeansAt(fr, id, idd), j)
    {
      assert id[j] in id;
      var v := pdf[indices[b + id[j]]].delta;
      diag' := diag' + xsq[j] * v.ivar;
      if v.mean != 0 {
        wum' := wum' + x[j] * v.mean;
      }
    }
    for j := 0 to numdd
      invariant diag' == diag + Dot(xsq, IvarsAt(fr, id, idd), numd + j)
      invariant wum' == wum + Dot(x, MeansAt(fr, id, idd), numd + j)
    {
      assert idd[j] in idd;
      var v := pdf[indices[b + idd[j]]].delta2;
      diag' := diag' + xsq[numd + j] * v.ivar;
      if v.mean != 0 {
        wum' := wum' + x[numd + j] * v.mean;
      }
    }
  }

  datatype Stencil = Stencil(x: seq<int>, xsq: seq<int>, id: seq<nat>, idd: seq<nat>)

  /** The coefficients (`initSmoothing`) and the frames they multiply, by position of frame `i`. */
  function StencilAt(n: nat, i: nat): Stencil
    requires 3 < n && i < n
  {
    if 1 < i && i < n - 2 then Stencil([1, -1, 2, -4, 2], [1, 1, 4, 16, 4], [i - 1, i + 1], [i - 1, i, i + 1])
    else if i == 0 then Stencil([-1, 2], [1, 4], [1], [1])
    else if i == 1 then Stencil([-1, -4, 2], [1, 16, 4], [2], [1, 2])
    else if i == n - 2 then Stencil([1, 2, -4], [1, 4, 16], [n - 3], [n - 3, n - 2])
    else Stencil([1, 2], [1, 4], [n - 2], [n - 2])
  }

  lemma Dot2(c: seq<int>, v: seq<int>)
    requires |c| == |v| == 2
    ensures Dot(c, v, 2) == c[0] * v[0] + c[1] * v[1]
  {
    assert Dot(c, v, 1) == c[0] * v[0];
  }

  lemma Dot3(c: seq<int>, v: seq<int>)
    requires |c| == |v| == 3
    ensures Dot(c, v, 3) == c[0] * v[0] + c[1] * v[1] + c[2] * v[2]
  {
    assert Dot(c, v, 1) == c[0] * v[0];
    assert Dot(c, v, 2) == Dot(c, v, 1) + c[1] * v[1];
  }

  lemma Dot5(c: seq<int>, v: seq<int>)
    requires |c| == |v| == 5
    ensures Dot(c, v, 5) == c[0] * v[0] + c[1] * v[1] + c[2] * v[2] + c[3] * v[3] + c[4] * v[4]
  {
    assert Dot(c, v, 1) == c[0] * v[0];
    assert Dot(c, v, 2) == Dot(c, v, 1) + c[1] * v[1];
    assert Dot(c, v, 3) == Dot(c, v, 2) + c[2] * v[2];
    assert Dot(c, v, 4) == Dot(c, v, 3) + c[3] * v[3];
  }

  /** The stencils compute the rows of the windows, at the borders too. */
  lemma StencilSums(fr: seq<PdfVector>, i: nat)
    requires 3 < |fr| && i < |fr|
    ensures var s := StencilAt(|fr|, i);
            && (forall j :: j in s.id || j in s.idd ==> j < |fr|)
            && |s.x| == |s.xsq| == |s.id| + |s.idd|
            && 4 * fr[i].level.ivar + Dot(s.xsq, IvarsAt(fr, s.id, s.idd), |s.x|) == DiagSum(fr, i)
            && 2 * fr[i].level.mean + Dot(s.x, MeansAt(fr, s.id, s.idd), |s.x|) == MeanSum(fr, i)
  {
    StencilIvars(fr, i);
    StencilMeans(fr, i);
    hide DiagSum, MeanSum, IvarsAt, MeansAt, Dot;
  }

  lemma StencilIvars(fr: seq<PdfVector>, i: nat)
    requires 3 < |fr| && i < |fr|
    ensures var s := StencilAt(|fr|, i);
            4 * fr[i].level.ivar + Dot(s.xsq, IvarsAt(fr, s.id, s.idd), |s.x|) == DiagSum(fr, i)
  {
    var s := StencilAt(|fr|, i);
    var v := IvarsAt(fr, s.id, s.idd);
    if |s.x| == 5 {
      Dot5(s.xsq, v);
    } else if |s.x| == 3 {
      Dot3(s.xsq, v);
    } else {
      Dot2(s.xsq, v);
    }
    hide Dot;
  }

  lemma StencilMeans(fr: seq<PdfVector>, i: nat)
    requires 3 < |fr| && i < |fr|
    ensures var s := StencilAt(|fr|, i);
            2 * fr[i].level.mean + Dot(s.x, MeansAt(fr, s.id, s.idd), |s.x|) == MeanSum(fr, i)
  {
    var s := StencilAt(|fr|, i);
    var m := MeansAt(fr, s.id, s.idd);
    if |s.x| == 5 {
      Dot5(s.x, m);
    } else if |s.x| == 3 {
      Dot3(s.x, m);
    } else {
      Dot2(s.x, m);
    }
    hide Dot;
  }

  /** Diagonal and right-hand side of frame `i`, from its static contribution. */
  method DiagonalRow(pdf: seq<PdfVector>, indices: seq<nat>, b: nat, n: nat, i: nat, level0: int, levelM: int)
    returns (d: int, m: int)
    requires 3 < n && i < n && b + n <= |indices| && forall k :: b <= k < b + n ==> indices[k] < |pdf|
    requires level0 == 4 * Frames(pdf, indices, b, n)[i].level.ivar
    requires levelM == 2 * Frames(pdf, indices, b, n)[i].level.mean
    ensures d == Band0(Frames(pdf, indices, b, n), i) && m == Rhs(Frames(pdf, indices, b, n), i)
  {
    ghost var fr := Frames(pdf, indices, b, n);
    var s := StencilAt(n, i);
    StencilSums(fr, i);
    d, m := AddDynamic(pdf, indices, b, n, level0, levelM, s.x, s.xsq, s.id, s.idd);
    QuadBands(fr, i);
    MeanVector(fr, i);
    d := CDiv(d + 2, 4);
    m := CDiv(m + 1, 2);
  }

  /** First off-diagonal of frame `i`, with the two memoised inverse variances. */
  method OffDiagonalRow(pdf: seq<PdfVector>, indices: seq<nat>, b: nat, n: nat, i: nat, prev1: int, prev1_1: int)
    returns (d: int, prev1': int, prev1_1': int)
    requires 3 < n && i < n - 1 && b + n <= |indices| && forall k :: b <= k < b + n ==> indices[k] < |pdf|
    requires 0 < i <= n - 2 ==> prev1 == Frames(pdf, indices, b, n)[i].delta2.ivar
    requires 1 < i ==> prev1_1 == Frames(pdf, indices, b, n)[i - 1].delta2.ivar
    ensures d == Band1(Frames(pdf, indices, b, n), i)
    ensures i < n - 2 ==> prev1' == Frames(pdf, indices, b, n)[i + 1].delta2.ivar
    ensures 0 < i ==> prev1_1' == Frames(pdf, indices, b, n)[i].delta2.ivar
  {
    prev1', prev1_1' := prev1, prev1_1;
    if i < n - 2 {
      if !(i > 0 && indices[b + i + 1] == indices[b + i]) {
        prev1' := pdf[indices[b + i + 1]].delta2.ivar;
      }
      d := prev1';
    } else {
      d := 0;
    }
    if i > 0 {
      if !(i > 1 && indices[b + i] == indices[b + i - 1]) {
        prev1_1' := pdf[indices[b + i]].delta2.ivar;
      }
      d := d + prev1_1';
    }
    d := d * -2;
  }

  /** The second off-diagonal of a frame is that of the frame before if both name the same pdf vector. */
  lemma OuterBand(fr: seq<PdfVector>, i: nat)
    requires i + 2 < |fr|
    ensures Band2(fr, i) == fr[i + 1].delta2.ivar - CDiv(fr[i + 1].delta.ivar + 2, 4)
    ensures i > 0 && fr[i] == fr[i + 1] ==> Band2(fr, i) == Band2(fr, i - 1)
  {
  }

  /** `makeWUWandWUm`: the memoised construction of the bands; no value depends on the memo. */
  method MakeWUWandWUm(pdf: seq<PdfVector>, indices: seq<nat>, b: nat, n: nat,
                       diag0: array<int>, diag1: array<int>, diag2: array<int>, wum: array<int>)
    requires 3 < n <= diag0.Length && n <= diag1.Length && n <= diag2.Length && n <= wum.Length
    requires diag0 != diag1 && diag0 != diag2 && diag0 != wum && diag1 != diag2 && diag1 != wum && diag2 != wum
    requires b + n <= |indices| && forall k :: b <= k < b + n ==> indices[k] < |pdf|
    modifies diag0, diag1, diag2, wum
    ensures var fr := Frames(pdf, indices, b, n);
            && (forall i :: 0 <= i < n ==> diag0[i] == Band0(fr, i) && wum[i] == Rhs(fr, i))
            && (forall i :: 0 <= i < n - 1 ==> diag1[i] == Band1(fr, i))
            && (forall i :: 0 <= i < n - 2 ==> diag2[i] == Band2(fr, i))
  {
    ghost var fr := Frames(pdf, indices, b, n);
    hide Band0, Band1, Band2, Rhs, CDiv;
    var prevWUm, prevDiag0, prevDiag1, prevDiag1_1, prevDiag2 := 0, 0, 0, 0, 0;
    for i := 0 to n
      invariant forall k :: 0 <= k < i ==> diag0[k] == Band0(fr, k) && wum[k] == Rhs(fr, k)
      invariant forall k :: 0 <= k < i && k < n - 1 ==> diag1[k] == Band1(fr, k)
      invariant 0 < i ==> prevDiag0 == 4 * fr[i - 1].level.ivar && prevWUm == 2 * fr[i - 1].level.mean
      invariant 0 < i <= n - 2 ==> prevDiag1 == fr[i].delta2.ivar
      invariant 1 < i <= n - 1 ==> prevDiag1_1 == fr[i - 1].delta2.ivar
    {
      if !(i > 0 && indices[b + i] == indices[b + i - 1]) {
        prevDiag0 := pdf[indices[b + i]].level.ivar * 4;
        prevWUm := pdf[indices[b + i]].level.mean * 2;
      }
      var d0, m := DiagonalRow(pdf, indices, b, n, i, prevDiag0, prevWUm);
      diag0[i], wum[i] := d0, m;
      if i < n - 1 {
        var d1;
        d1, prevDiag1, prevDiag1_1 := OffDiagonalRow(pdf, indices, b, n, i, prevDiag1, prevDiag1_1);
        diag1[i] := d1;
      }
    }
    for i := 0 to n - 2
      invariant forall k :: 0 <= k < n ==> diag0[k] == Band0(fr, k) && wum[k] == Rhs(fr, k)
      invariant forall k :: 0 <= k < n - 1 ==> diag1[k] == Band1(fr, k)
      invariant forall k :: 0 <= k < i ==> diag2[k] == Band2(fr, k)
      invariant 0 < i ==> prevDiag2 == Band2(fr, i - 1)
    {
      if !(i > 0 && indices[b + i + 1] == indices[b + i]) {
        var v := pdf[indices[b + i + 1]];
        prevDiag2 := v.delta2.ivar - CDiv(v.delta.ivar + 2, 4);
      }
      OuterBand(fr, i);
      diag2[i] := prevDiag2;
    }
  }

  // ---------------------------------------------------------------------------
  // How far the rounded bands are from the exact ones
  // ---------------------------------------------------------------------------

  /** Inverse variances are never negative; a frame's static one is positive. */
  ghost predicate ValidIvars(fr: seq<PdfVector>) {
    forall t :: 0 <= t < |fr| ==> fr[t].level.ivar >= 1 && fr[t].delta.ivar >= 0 && fr[t].delta2.ivar >= 0
  }

  /** The matrix bands are rounded to the nearest integer (the first off-diagonal needs no rounding). */
  lemma BandRounding(fr: seq<PdfVector>, i: int)
    requires ValidIvars(fr) && 0 <= i < |fr|
    ensures -1 <= 4 * Band0(fr, i) - Quad(fr, i, i, |fr|) <= 2
    ensures i + 1 < |fr| ==> 4 * Band1(fr, i) == Quad(fr, i, i + 1, |fr|)
    ensures i + 2 < |fr| ==> -2 <= 4 * Band2(fr, i) - Quad(fr, i, i + 2, |fr|) <= 1
  {
    QuadBands(fr, i);
  }

  /** The right-hand side is not: C's division rounds a negative even sum up by a whole unit, and only those. */
  lemma RhsRounding(fr: seq<PdfVector>, i: int)
    requires 0 <= i < |fr|
    ensures var m := Mean(fr, i, |fr|);
            2 * Rhs(fr, i) - m == if m % 2 == 1 then 1 else if m < 0 then 2 else 0
  {
  }

  const FLAT: PdfVector := PdfVector(Gaussian(-2, 1), Gaussian(0, 1), Gaussian(0, 1))

  /** Four frames, each with the static mean -2 and no dynamic ones: the exact right-hand side is -2, and -1 is used. */
  lemma RhsOffByOne(i: nat)
    requires i < 4
    ensures var fr := [FLAT, FLAT, FLAT, FLAT];
            ValidIvars(fr) && Mean(fr, i, 4) == 2 * -2 && Rhs(fr, i) == -1
  {
    var fr := [FLAT, FLAT, FLAT, FLAT];
    MeanVector(fr, i);
    RhsRounding(fr, i);
  }

  // ---------------------------------------------------------------------------
  // The rounded matrix is still positive definite
  // ---------------------------------------------------------------------------

  /** The system that `makeWUWandWUm` hands to `invMatrix`. */
  ghost function System(fr: seq<PdfVector>): Penta
    requires |fr| > 3
  {
    Penta(seq(|fr|, i requires 0 <= i < |fr| => Band0(fr, i) as real),
          seq(|fr| - 1, i => Band1(fr, i) as real),
          seq(|fr| - 2, i => Band2(fr, i) as real))
  }

  function Fold(fr: seq<PdfVector>, t: int): int { CDiv(Dyn(fr, t).delta.ivar + 2, 4) }

  /** What is left of the diagonal once the rounded delta rows are taken out. */
  function Residue(fr: seq<PdfVector>, i: int): int
    requires 0 <= i < |fr|
  {
    Band0(fr, i) - Fold(fr, i - 1) - Fold(fr, i + 1)
    - Dyn(fr, i - 1).delta2.ivar - 4 * Dyn(fr, i).delta2.ivar - Dyn(fr, i + 1).delta2.ivar
  }

  lemma ResidueBounds(fr: seq<PdfVector>, i: int)
    requires ValidIvars(fr) && |fr| > 3 && 0 <= i < |fr|
    ensures Residue(fr, i) >= 0
    ensures Residue(fr, i) == 0 ==> i + 2 < |fr| && Fold(fr, i + 1) >= 1
  {
    QuadBands(fr, i);
    var (d, e) := (Dyn(fr, i - 1).delta.ivar, Dyn(fr, i + 1).delta.ivar);
    var g := fr[i].level.ivar + Dyn(fr, i - 1).delta2.ivar + 4 * Dyn(fr, i).delta2.ivar + Dyn(fr, i + 1).delta2.ivar;
    assert Quad(fr, i, i, |fr|) + 2 == 4 * g + (d + e + 2);
    assert Band0(fr, i) == g + (d + e + 2) / 4;
  }

  function SquaresRow(r: real, f: real, g: real, w: real, u: real, v: real): real {
    r * Sq(u) + f * Sq(v - w) + g * Sq(w - 2.0 * u + v)
  }

  function SumSquares(fr: seq<PdfVector>, x: seq<real>, k: nat): real
    decreases |fr| - k
  {
    if k >= |fr| then 0.0
    else
      SquaresRow(Residue(fr, k) as real, Fold(fr, k) as real, Dyn(fr, k).delta2.ivar as real,
                 At(x, k - 1), At(x, k), At(x, k + 1))
      + SumSquares(fr, x, k + 1)
  }

  function BorderRow(fp: real, f: real, gp: real, g: real, w: real, u: real, v: real): real {
    fp * (u * u) - f * (w * w - 2.0 * (w * v)) + gp * (u * u) - g * (w * w - 4.0 * (w * u) + 2.0 * (w * v))
  }

  /** What the terms of row k-1 and below contribute to the sum of squares but not to `QuadFrom(k)`. */
  function Border(fr: seq<PdfVector>, x: seq<real>, k: int): real {
    BorderRow(Fold(fr, k - 1) as real, Fold(fr, k) as real,
              Dyn(fr, k - 1).delta2.ivar as real, Dyn(fr, k).delta2.ivar as real, At(x, k - 1), At(x, k), At(x, k + 1))
  }

  lemma BorderStep(a0: real, a1: real, a2: real, r: real, fp: real, f0: real, fn: real, gp: real, g0: real, gn: real,
                   w: real, u: real, v: real, z: real)
    requires a0 == r + fp + fn + gp + 4.0 * g0 + gn && a1 == -2.0 * (g0 + gn) && a2 == gn - fn
    ensures QuadRow(a0, a1, a2, u, v, z) + BorderRow(f0, fn, g0, gn, u, v, z)
         == SquaresRow(r, f0, g0, w, u, v) + BorderRow(fp, f0, gp, g0, w, u, v)
  {
    assert Sq(v - w) == v * v - 2.0 * (w * v) + w * w;
    assert Sq(w - 2.0 * u + v) == w * w + 4.0 * (u * u) + v * v - 4.0 * (w * u) + 2.0 * (w * v) - 4.0 * (u * v);
  }

  lemma SystemRow(fr: seq<PdfVector>, k: nat)
    requires |fr| > 3 && k < |fr|
    ensures var (g0, gn) := (Dyn(fr, k).delta2.ivar as real, Dyn(fr, k + 1).delta2.ivar as real);
            && At(System(fr).a0, k)
               == Residue(fr, k) as real + Fold(fr, k - 1) as real + Fold(fr, k + 1) as real
                  + Dyn(fr, k - 1).delta2.ivar as real + 4.0 * g0 + gn
            && At(System(fr).a1, k) == -2.0 * (g0 + gn)
            && At(System(fr).a2, k) == gn - Fold(fr, k + 1) as real
  {
  }

  lemma {:induction false} QuadIsSumOfSquares(fr: seq<PdfVector>, x: seq<real>, k: nat)
    requires |x| == |fr| > 3 && k <= |fr|
    ensures QuadFrom(System(fr), x, k) == SumSquares(fr, x, k) + Border(fr, x, k)
    decreases |fr| - k
  {
    if k >= |fr| {
      assert Dyn(fr, k) == Dyn(fr, k - 1) == NO_ROW && Fold(fr, k) == Fold(fr, k - 1) == 0;
      assert Border(fr, x, k) == 0.0;
    } else {
      QuadIsSumOfSquares(fr, x, k + 1);
      SystemRow(fr, k);
      var a := System(fr);
      hide System, Residue, Fold, Dyn, QuadRow, SquaresRow, BorderRow;
      BorderStep(At(a.a0, k), At(a.a1, k), At(a.a2, k),
                 Residue(fr, k) as real, Fold(fr, k - 1) as real, Fold(fr, k) as real, Fold(fr, k + 1) as real,
                 Dyn(fr, k - 1).delta2.ivar as real, Dyn(fr, k).delta2.ivar as real, Dyn(fr, k + 1).delta2.ivar as real,
                 At(x, k - 1), At(x, k), At(x, k + 1), At(x, k + 2));
    }
  }

  lemma WeightedSquare(c: int, u: real, p: real)
    requires c >= 0 && p == c as real * Sq(u)
    ensures p >= 0.0 && (c > 0 && u != 0.0 ==> p > 0.0)
  {
    if c > 0 {
      ScaledSquare(c as real, u);
    } else {
      assert 0.0 * Sq(u) == 0.0;
    }
  }

  lemma SquaresRowBounds(r: int, f: int, g: int, w: real, u: real, v: real, s: real)
    requires r >= 0 && f >= 0 && g >= 0 && s == SquaresRow(r as real, f as real, g as real, w, u, v)
    ensures s >= 0.0 && (r > 0 && u != 0.0 ==> s > 0.0) && (f > 0 && v != w ==> s > 0.0)
  {
    WeightedSquare(r, u, r as real * Sq(u));
    WeightedSquare(f, v - w, f as real * Sq(v - w));
    WeightedSquare(g, w - 2.0 * u + v, g as real * Sq(w - 2.0 * u + v));
  }

  lemma TermBounds(fr: seq<PdfVector>, x: seq<real>, k: nat)
    requires ValidIvars(fr) && |fr| > 3 && k < |fr|
    ensures SumSquares(fr, x, k) >= SumSquares(fr, x, k + 1)
    ensures Residue(fr, k) > 0 && At(x, k) != 0.0 ==> SumSquares(fr, x, k) > SumSquares(fr, x, k + 1)
    ensures Fold(fr, k) > 0 && At(x, k + 1) != At(x, k - 1) ==> SumSquares(fr, x, k) > SumSquares(fr, x, k + 1)
  {
    ResidueBounds(fr, k);
    SquaresRowBounds(Residue(fr, k), Fold(fr, k), Dyn(fr, k).delta2.ivar, At(x, k - 1), At(x, k), At(x, k + 1),
                     SumSquares(fr, x, k) - SumSquares(fr, x, k + 1));
  }

  lemma {:induction false} SumSquaresDrop(fr: seq<PdfVector>, x: seq<real>, k: nat, j: nat)
    requires ValidIvars(fr) && |fr| > 3 && k <= j <= |fr|
    ensures SumSquares(fr, x, k) >= SumSquares(fr, x, j)
    decreases j - k
  {
    if k >= j {
    } else {
      TermBounds(fr, x, k);
      SumSquaresDrop(fr, x, k + 1, j);
    }
  }

  /** A non-zero entry shows in the sum of squares, at the latest at the border its parity class reaches. */
  lemma {:induction false} EntryShows(fr: seq<PdfVector>, x: seq<real>, k: nat)
    requires ValidIvars(fr) && |x| == |fr| > 3 && k < |fr| && x[k] != 0.0
    ensures SumSquares(fr, x, 0) > 0.0
    decreases |fr| - k
  {
    ResidueBounds(fr, k);
    if Residue(fr, k) > 0 {
      RowShows(fr, x, k);
    } else if x[k + 2] != 0.0 {
      EntryShows(fr, x, k + 2);
    } else {
      RowShows(fr, x, k + 1);
    }
  }

  lemma RowShows(fr: seq<PdfVector>, x: seq<real>, k: nat)
    requires ValidIvars(fr) && |x| == |fr| > 3 && k < |fr|
    requires (Residue(fr, k) > 0 && At(x, k) != 0.0) || (Fold(fr, k) > 0 && At(x, k + 1) != At(x, k - 1))
    ensures SumSquares(fr, x, 0) > 0.0
  {
    SumSquaresDrop(fr, x, 0, k);
    TermBounds(fr, x, k);
    SumSquaresDrop(fr, x, k + 1, |fr|);
  }

  lemma BorderAtTop(fr: seq<PdfVector>, x: seq<real>)
    ensures Border(fr, x, 0) == 0.0
  {
    assert Fold(fr, -1) == Fold(fr, 0) == 0;
    assert Dyn(fr, -1) == Dyn(fr, 0) == NO_ROW;
  }

  /** The rounded system is positive definite, whatever the rounding. */
  lemma SystemPositiveDefinite(fr: seq<PdfVector>)
    requires ValidIvars(fr) && |fr| > 3
    ensures PositiveDefinite(System(fr), |fr|)
  {
    forall x: seq<real> | |x| == |fr| && NonzeroVector(x) ensures QuadFrom(System(fr), x, 0) > 0.0 {
      QuadIsSumOfSquares(fr, x, 0);
      BorderAtTop(fr, x);
      var k :| 0 <= k < |x| && x[k] != 0.0;
      EntryShows(fr, x, k);
    }
  }

  /** So every pivot that `invMatrix` meets is positive, and its divisions are all defined. */
  lemma SmoothingPivotsPositive(fr: seq<PdfVector>)
    requires ValidIvars(fr) && |fr| > 3
    ensures PositivePivots(Factors(System(fr), |fr|)) && NonzeroPivots(Factors(System(fr), |fr|))
  {
    SystemPositiveDefinite(fr);
    PivotsPositive(System(fr), |fr|, |fr|);
  }

  method ToReals(a: array<int>, n: nat) returns (r: array<real>)
    requires n <= a.Length
    ensures fresh(r) && r.Length == n && forall i :: 0 <= i < n ==> r[i] == a[i] as real
  {
    r := new real[n](_ => 0.0);
    for k := 0 to n
      invariant forall i :: 0 <= i < k ==> r[i] == a[i] as real
    {
      r[k] := a[k] as real;
    }
  }

  /** Smoothing one coefficient (`cepStep`): build the bands, then solve over the reals. */
  method Smooth(pdf: seq<PdfVector>, indices: seq<nat>, b: nat, n: nat) returns (x: array<real>)
    requires 3 < n && b + n <= |indices| && forall k :: b <= k < b + n ==> indices[k] < |pdf|
    requires ValidIvars(Frames(pdf, indices, b, n))
    ensures var fr := Frames(pdf, indices, b, n);
            var rhs := seq(n, i requires 0 <= i < n => Rhs(fr, i) as real);
            && x.Length == n && IsSolution(System(fr), rhs, x[..])
            && forall y :: IsSolution(System(fr), rhs, y) ==> y == x[..]
  {
    ghost var fr := Frames(pdf, indices, b, n);
    hide Frames, Band0, Band1, Band2, Rhs, ValidIvars, IsSolution, NonzeroPivots, Factors, System, Bands;
    var diag0, diag1, diag2, wum := new int[n], new int[n], new int[n], new int[n];
    MakeWUWandWUm(pdf, indices, b, n, diag0, diag1, diag2, wum);
    var d0 := ToReals(diag0, n);
    var d1 := ToReals(diag1, n);
    var d2 := ToReals(diag2, n);
    x := ToReals(wum, n);
    var invdiag0 := new real[n];
    BandsOfSystem(fr, d0, d1, d2);
    ghost var rhs := seq(n, i requires 0 <= i < n => Rhs(fr, i) as real);
    assert x[..n] == rhs;
    SmoothingPivotsPositive(fr);
    hide *;
    InvMatrix(d0, d1, d2, x, invdiag0, n);
    assert x[..] == x[..n];
  }

  lemma BandsOfSystem(fr: seq<PdfVector>, d0: array<real>, d1: array<real>, d2: array<real>)
    requires 3 < |fr| == d0.Length == d1.Length == d2.Length
    requires forall i :: 0 <= i < |fr| ==> d0[i] == Band0(fr, i) as real
    requires forall i :: 0 <= i < |fr| - 1 ==> d1[i] == Band1(fr, i) as real
    requires forall i :: 0 <= i < |fr| - 2 ==> d2[i] == Band2(fr, i) as real
    ensures Bands(d0, d1, d2, |fr|) == System(fr)
  {
    hide Band0, Band1, Band2;
  }
}
