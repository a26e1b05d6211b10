/** Estimation of the homography from clicked correspondences (getHomography):
    the direct-linear-transform system A·h = B, the identity fallback when there
    are too few correspondences, the matrix H built from the solution with
    H[2][2] = 1, and the cross-product sanity check. The linear solver is a
    parameter of the model. */
module Homography {
  import opened Geometry

  /** A clicked pixel position. */
  datatype Point = Point(x: int, y: int)

  /** Fewest correspondences for which a system is assembled. */
  const MinCorrespondences := 4

  /** Number of correspondences used: the length of the shorter click list. */
  function Count(pts1: seq<Point>, pts2: seq<Point>): (n: nat)
    ensures n <= |pts1| && n <= |pts2|
    ensures n == |pts1| || n == |pts2|
  {
    if |pts1| <= |pts2| then |pts1| else |pts2|
  }

  /** Coefficients of the equation for x2 that the correspondence p1 ↦ p2 contributes. */
  function XRow(p1: Point, p2: Point): (row: seq<int>)
    ensures |row| == 8
  {
    [p1.x, p1.y, 1, 0, 0, 0, -p1.x * p2.x, -p2.x * p1.y]
  }

  /** Coefficients of the equation for y2 that the correspondence p1 ↦ p2 contributes. */
  function YRow(p1: Point, p2: Point): (row: seq<int>)
    ensures |row| == 8
  {
    [0, 0, 0, p1.x, p1.y, 1, -p1.x * p2.y, -p2.y * p1.y]
  }

  /** Row r of A: even rows are x-equations, odd rows y-equations of pair r / 2. */
  function SystemRow(pts1: seq<Point>, pts2: seq<Point>, r: nat): (row: seq<int>)
    requires r < 2 * Count(pts1, pts2)
    ensures |row| == 8
  {
    if r % 2 == 0 then XRow(pts1[r / 2], pts2[r / 2]) else YRow(pts1[r / 2], pts2[r / 2])
  }

  /** Entry r of B: the target coordinate that row r of A must produce. */
  function SystemRhs(pts1: seq<Point>, pts2: seq<Point>, r: nat): int
    requires r < 2 * Count(pts1, pts2)
  {
    if r % 2 == 0 then pts2[r / 2].x else pts2[r / 2].y
  }

  /** The whole matrix A, as a sequence of rows. */
  function SystemMatrix(pts1: seq<Point>, pts2: seq<Point>): (a: seq<seq<int>>)
    ensures |a| == 2 * Count(pts1, pts2)
    ensures forall r :: 0 <= r < |a| ==> a[r] == SystemRow(pts1, pts2, r)
  {
    seq(2 * Count(pts1, pts2), r requires 0 <= r < 2 * Count(pts1, pts2) => SystemRow(pts1, pts2, r))
  }

  /** The whole vector B. */
  function SystemVector(pts1: seq<Point>, pts2: seq<Point>): (b: seq<int>)
    ensures |b| == 2 * Count(pts1, pts2)
    ensures forall r :: 0 <= r < |b| ==> b[r] == SystemRhs(pts1, pts2, r)
  {
    seq(2 * Count(pts1, pts2), r requires 0 <= r < 2 * Count(pts1, pts2) => SystemRhs(pts1, pts2, r))
  }

  /** The rows of an integer matrix stored in a two-dimensional array. */
  function RowsOf(a: array2<int>): (rows: seq<seq<int>>)
    reads a
  {
    seq(a.Length0, r requires 0 <= r < a.Length0 reads a =>
      seq(a.Length1, c requires 0 <= c < a.Length1 reads a => a[r, c]))
  }

  /** The value of one equation of the system at the unknowns h. */
  function Dot8(row: seq<int>, h: seq<real>): real
    requires |row| == 8 && |h| == 8
  {
    row[0] as real * h[0] + row[1] as real * h[1] + row[2] as real * h[2] + row[3] as real * h[3]
    + row[4] as real * h[4] + row[5] as real * h[5] + row[6] as real * h[6] + row[7] as real * h[7]
  }

  /** h solves A·h = B exactly, over the reals. */
  ghost predicate Solves(a: seq<seq<int>>, b: seq<int>, h: seq<real>)
    requires |h| == 8 && |a| == |b|
    requires forall r :: 0 <= r < |a| ==> |a[r]| == 8
  {
    forall r :: 0 <= r < |a| ==> Dot8(a[r], h) == b[r] as real
  }

  /** The homography [[h0, h1, h2], [h3, h4, h5], [h6, h7, 1]]. */
  function HomographyOf(h: seq<real>): Mat3
    requires |h| == 8
  {
    Mat3(Vec3(h[0], h[1], h[2]), Vec3(h[3], h[4], h[5]), Vec3(h[6], h[7], 1.0))
  }

  /** The sanity-check vector of a correspondence: H·[x1, y1, 1] crossed with [x2, y2, 1]. */
  function Residual(m: Mat3, p1: Point, p2: Point): Vec3 {
    Cross(Apply(m, Homogeneous(p1.x as real, p1.y as real)), Homogeneous(p2.x as real, p2.y as real))
  }

  /** The two equations of one correspondence hold at h exactly when the
      sanity-check residual of that correspondence is the zero vector. */
  lemma CorrespondenceResidual(p1: Point, p2: Point, h: seq<real>)
    requires |h| == 8
    ensures (Dot8(XRow(p1, p2), h) == p2.x as real && Dot8(YRow(p1, p2), h) == p2.y as real)
            <==> Residual(HomographyOf(h), p1, p2) == Zero
  {
    var x1, y1, x2, y2 := p1.x as real, p1.y as real, p2.x as real, p2.y as real;
    var v := Apply(HomographyOf(h), Homogeneous(x1, y1));
    assert v.z == h[6] * x1 + h[7] * y1 + 1.0;
    assert Dot8(XRow(p1, p2), h) == v.x - x2 * (v.z - 1.0);
    assert Dot8(YRow(p1, p2), h) == v.y - y2 * (v.z - 1.0);
    CrossZeroIffProportional(v, x2, y2);
  }

  /** Rows 2i and 2i + 1 of the system hold at h exactly when the residual
      of pair i is zero. */
  lemma PairResidual(pts1: seq<Point>, pts2: seq<Point>, i: nat, h: seq<real>)
    requires i < Count(pts1, pts2) && |h| == 8
    ensures (Dot8(SystemRow(pts1, pts2, 2 * i), h) == SystemRhs(pts1, pts2, 2 * i) as real
             && Dot8(SystemRow(pts1, pts2, 2 * i + 1), h) == SystemRhs(pts1, pts2, 2 * i + 1) as real)
            <==> Residual(HomographyOf(h), pts1[i], pts2[i]) == Zero
  {
    assert SystemRow(pts1, pts2, 2 * i) == XRow(pts1[i], pts2[i]);
    assert SystemRow(pts1, pts2, 2 * i + 1) == YRow(pts1[i], pts2[i]);
    CorrespondenceResidual(pts1[i], pts2[i], h);
  }

  /** Every residual of the sanity check is zero: the residual vector of every used pair vanishes. */
  ghost predicate AllResidualsZero(pts1: seq<Point>, pts2: seq<Point>, h: seq<real>)
    requires |h| == 8
  {
    forall i :: 0 <= i < Count(pts1, pts2) ==> Residual(HomographyOf(h), pts1[i], pts2[i]) == Zero
  }

  /** The sanity check observes exact solutions: h solves the assembled system
      exactly when every correspondence's residual is zero. */
  lemma ExactIffZeroResiduals(pts1: seq<Point>, pts2: seq<Point>, h: seq<real>)
    requires |h| == 8
    ensures Solves(SystemMatrix(pts1, pts2), SystemVector(pts1, pts2), h) <==> AllResidualsZero(pts1, pts2, h)
  {
    if Solves(SystemMatrix(pts1, pts2), SystemVector(pts1, pts2), h) {
      ExactGivesZeroResiduals(pts1, pts2, h);
    }
    if AllResidualsZero(pts1, pts2, h) {
      ZeroResidualsGiveExact(pts1, pts2, h);
    }
  }

  lemma ExactGivesZeroResiduals(pts1: seq<Point>, pts2: seq<Point>, h: seq<real>)
    requires |h| == 8
    requires Solves(SystemMatrix(pts1, pts2), SystemVector(pts1, pts2), h)
    ensures AllResidualsZero(pts1, pts2, h)
  {
    var a, b := SystemMatrix(pts1, pts2), SystemVector(pts1, pts2);
    forall i | 0 <= i < Count(pts1, pts2)
      ensures Residual(HomographyOf(h), pts1[i], pts2[i]) == Zero
    {
      assert Dot8(a[2 * i], h) == b[2 * i] as real;
      assert Dot8(a[2 * i + 1], h) == b[2 * i + 1] as real;
      PairResidual(pts1, pts2, i, h);
    }
  }

  lemma ZeroResidualsGiveExact(pts1: seq<Point>, pts2: seq<Point>, h: seq<real>)
    requires |h| == 8
    requires AllResidualsZero(pts1, pts2, h)
    ensures Solves(SystemMatrix(pts1, pts2), SystemVector(pts1, pts2), h)
  {
    var a, b := SystemMatrix(pts1, pts2), SystemVector(pts1, pts2);
    forall r | 0 <= r < |a|
      ensures Dot8(a[r], h) == b[r] as real
    {
      PairResidual(pts1, pts2, r / 2, h);
    }
  }

  /** Only the first Count(pts1, pts2) pairs enter the system: dropping the
      surplus of the longer list changes neither A nor B. */
  lemma {:induction false} FirstPairsOnly(pts1: seq<Point>, pts2: seq<Point>)
    ensures var n := Count(pts1, pts2);
            SystemMatrix(pts1[..n], pts2[..n]) == SystemMatrix(pts1, pts2)
            && SystemVector(pts1[..n], pts2[..n]) == SystemVector(pts1, pts2)
  {
    var n := Count(pts1, pts2);
    assert Count(pts1[..n], pts2[..n]) == n;
    forall r | 0 <= r < 2 * n
      ensures SystemRow(pts1[..n], pts2[..n], r) == SystemRow(pts1, pts2, r)
      ensures SystemRhs(pts1[..n], pts2[..n], r) == SystemRhs(pts1, pts2, r)
    {
      assert pts1[..n][r / 2] == pts1[r / 2] && pts2[..n][r / 2] == pts2[r / 2];
    }
  }

  /** Lines 81-88: the eight entries of the x-equation row r of A. */
  method WriteXRow(a: array2<int>, r: nat, p1: Point, p2: Point)
    requires r < a.Length0 && a.Length1 == 8
    modifies a
    ensures forall c :: 0 <= c < 8 ==> a[r, c] == XRow(p1, p2)[c]
    ensures forall r', c :: 0 <= r' < a.Length0 && r' != r && 0 <= c < 8 ==> a[r', c] == old(a[r', c])
  {
    var x1, y1, x2 := p1.x, p1.y, p2.x;
    a[r, 0] := x1;
    a[r, 1] := y1;
    a[r, 2] := 1;
    a[r, 3] := 0;
    a[r, 4] := 0;
    a[r, 5] := 0;
    a[r, 6] := -x1 * x2;
    a[r, 7] := -x2 * y1;
  }

  /** Lines 90-97: the eight entries of the y-equation row r of A. */
  method WriteYRow(a: array2<int>, r: nat, p1: Point, p2: Point)
    requires r < a.Length0 && a.Length1 == 8
    modifies a
    ensures forall c :: 0 <= c < 8 ==> a[r, c] == YRow(p1, p2)[c]
    ensures forall r', c :: 0 <= r' < a.Length0 && r' != r && 0 <= c < 8 ==> a[r', c] == old(a[r', c])
  {
    var x1, y1, y2 := p1.x, p1.y, p2.y;
    a[r, 0] := 0;
    a[r, 1] := 0;
    a[r, 2] := 0;
    a[r, 3] := x1;
    a[r, 4] := y1;
    a[r, 5] := 1;
    a[r, 6] := -x1 * y2;
    a[r, 7] := -y2 * y1;
  }

  /** Fills A (2n × 8) and B (2n) entry by entry, one correspondence per iteration. */
  method AssembleSystem(pts1: seq<Point>, pts2: seq<Point>) returns (a: array2<int>, b: array<int>)
    ensures a.Length0 == 2 * Count(pts1, pts2) && a.Length1 == 8
    ensures b.Length == 2 * Count(pts1, pts2)
    ensures forall r, c :: 0 <= r < a.Length0 && 0 <= c < 8 ==> a[r, c] == SystemRow(pts1, pts2, r)[c]
    ensures forall r :: 0 <= r < b.Length ==> b[r] == SystemRhs(pts1, pts2, r)
  {
    var n := Count(pts1, pts2);
    a := new int[2 * n, 8];
    b := new int[2 * n];
    var i := 0;
    while i < n
      invariant 0 <= i <= n
      invariant forall k, c :: 0 <= k < i && 0 <= c < 8 ==>
                  a[2 * k, c] == XRow(pts1[k], pts2[k])[c] && a[2 * k + 1, c] == YRow(pts1[k], pts2[k])[c]
      invariant forall k :: 0 <= k < i ==> b[2 * k] == pts2[k].x && b[2 * k + 1] == pts2[k].y
    {
      WriteXRow(a, 2 * i, pts1[i], pts2[i]);
      WriteYRow(a, 2 * i + 1, pts1[i], pts2[i]);
      b[2 * i] := pts2[i].x;
      b[2 * i + 1] := pts2[i].y;
      i := i + 1;
    }
    forall r, c | 0 <= r < a.Length0 && 0 <= c < 8
      ensures a[r, c] == SystemRow(pts1, pts2, r)[c]
    {
      var k := r / 2;
      assert r == 2 * k || r == 2 * k + 1;
    }
    forall r | 0 <= r < b.Length
      ensures b[r] == SystemRhs(pts1, pts2, r)
    {
      var k := r / 2;
      assert r == 2 * k || r == 2 * k + 1;
    }
  }

  /** Arrays holding the system entry by entry hold A and B as values. */
  lemma AssembledIsSystem(pts1: seq<Point>, pts2: seq<Point>, a: array2<int>, b: array<int>)
    requires a.Length0 == 2 * Count(pts1, pts2) && a.Length1 == 8
    requires b.Length == 2 * Count(pts1, pts2)
    requires forall r, c :: 0 <= r < a.Length0 && 0 <= c < 8 ==> a[r, c] == SystemRow(pts1, pts2, r)[c]
    requires forall r :: 0 <= r < b.Length ==> b[r] == SystemRhs(pts1, pts2, r)
    ensures RowsOf(a) == SystemMatrix(pts1, pts2) && b[..] == SystemVector(pts1, pts2)
  {
    forall r | 0 <= r < a.Length0
      ensures RowsOf(a)[r] == SystemRow(pts1, pts2, r)
    {
    }
  }

  /** The sanity-check loop: the residual of every used correspondence under H,
      in order (the values the program prints). */
  method SanityCheck(pts1: seq<Point>, pts2: seq<Point>, hm: array2<real>) returns (residuals: seq<Vec3>)
    requires hm.Length0 == 3 && hm.Length1 == 3
    ensures |residuals| == Count(pts1, pts2)
    ensures forall i :: 0 <= i < |residuals| ==> residuals[i] == Residual(MatrixOf(hm), pts1[i], pts2[i])
  {
    var n := Count(pts1, pts2);
    residuals := [];
    var i := 0;
    while i < n
      invariant 0 <= i <= n
      invariant |residuals| == i
      invariant forall k :: 0 <= k < i ==> residuals[k] == Residual(MatrixOf(hm), pts1[k], pts2[k])
    {
      var v1 := Vec3(pts1[i].x as real, pts1[i].y as real, 1.0);
      var v2 := Vec3(pts2[i].x as real, pts2[i].y as real, 1.0);
      var u := Vec3(hm[0, 0] * v1.x + hm[0, 1] * v1.y + hm[0, 2] * v1.z,
                    hm[1, 0] * v1.x + hm[1, 1] * v1.y + hm[1, 2] * v1.z,
                    hm[2, 0] * v1.x + hm[2, 1] * v1.y + hm[2, 2] * v1.z);
      residuals := residuals + [Vec3(u.y * v2.z - u.z * v2.y, u.z * v2.x - u.x * v2.z, u.x * v2.y - u.y * v2.x)];
      i := i + 1;
    }
  }

  /** Matrix<float>::Identity(3). */
  method IdentityMatrix() returns (hm: array2<real>)
    ensures fresh(hm) && hm.Length0 == 3 && hm.Length1 == 3
    ensures MatrixOf(hm) == Identity
  {
    hm := new real[3, 3];
    hm[0, 0], hm[0, 1], hm[0, 2] := 1.0, 0.0, 0.0;
    hm[1, 0], hm[1, 1], hm[1, 2] := 0.0, 1.0, 0.0;
    hm[2, 0], hm[2, 1], hm[2, 2] := 0.0, 0.0, 1.0;
  }

  /** Lines 104-107: H written cell by cell from the solution, row-major, with H[2][2] = 1. */
  method LayOut(h: seq<real>) returns (hm: array2<real>)
    requires |h| == 8
    ensures fresh(hm) && hm.Length0 == 3 && hm.Length1 == 3
    ensures MatrixOf(hm) == HomographyOf(h)
  {
    hm := new real[3, 3];
    hm[0, 0], hm[0, 1], hm[0, 2] := h[0], h[1], h[2];
    hm[1, 0], hm[1, 1], hm[1, 2] := h[3], h[4], h[5];
    hm[2, 0], hm[2, 1], hm[2, 2] := h[6], h[7], 1.0;
  }

  /** getHomography. With fewer than four correspondences it returns the
      identity and no residuals; otherwise it assembles A and B, hands them to
      the solver, builds H from the solution and runs the sanity check, whose
      residuals all vanish exactly when the solution is exact. */
  method GetHomography(pts1: seq<Point>, pts2: seq<Point>, solve: (seq<seq<int>>, seq<int>) -> seq<real>)
    returns (hm: array2<real>, residuals: seq<Vec3>)
    requires Count(pts1, pts2) >= MinCorrespondences ==>
               |solve(SystemMatrix(pts1, pts2), SystemVector(pts1, pts2))| == 8
    ensures fresh(hm) && hm.Length0 == 3 && hm.Length1 == 3 && hm[2, 2] == 1.0
    ensures Count(pts1, pts2) < MinCorrespondences ==> MatrixOf(hm) == Identity && residuals == []
    ensures Count(pts1, pts2) >= MinCorrespondences ==>
              MatrixOf(hm) == HomographyOf(solve(SystemMatrix(pts1, pts2), SystemVector(pts1, pts2)))
    ensures Count(pts1, pts2) >= MinCorrespondences ==>
              |residuals| == Count(pts1, pts2)
              && forall i :: 0 <= i < |residuals| ==> residuals[i] == Residual(MatrixOf(hm), pts1[i], pts2[i])
    ensures Count(pts1, pts2) >= MinCorrespondences ==>
              (Solves(SystemMatrix(pts1, pts2), SystemVector(pts1, pts2), solve(SystemMatrix(pts1, pts2), SystemVector(pts1, pts2)))
               <==> forall i :: 0 <= i < |residuals| ==> residuals[i] == Zero)
  {
    var n := Count(pts1, pts2);
    if n < MinCorrespondences {
      hm := IdentityMatrix();
      residuals := [];
      return;
    }

    var a, b := AssembleSystem(pts1, pts2);
    AssembledIsSystem(pts1, pts2, a, b);
    var h := solve(RowsOf(a), b[..]);

    hm := LayOut(h);

    residuals := SanityCheck(pts1, pts2, hm);
    ExactIffZeroResiduals(pts1, pts2, h);
  }
}
