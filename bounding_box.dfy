/** The output canvas rectangle of panorama: it starts as image 2's frame and
    is grown (growTo) to take in the four corners of image 1 mapped through H. */
module BoundingBox {
  import opened Geometry

  /** The rectangle with corners (x0, y0) and (x1, y1). */
  datatype Box = Box(x0: real, y0: real, x1: real, y1: real)

  predicate Contains(b: Box, x: real, y: real) {
    b.x0 <= x <= b.x1 && b.y0 <= y <= b.y1
  }

  /** Every bound of outer lies at or beyond the matching bound of inner. */
  predicate Encloses(outer: Box, inner: Box) {
    outer.x0 <= inner.x0 && outer.y0 <= inner.y0 && inner.x1 <= outer.x1 && inner.y1 <= outer.y1
  }

  /** growTo: moves each bound just far enough to take in (x, y). The result is
      the smallest box around b and the point; a point already inside leaves
      the box as it was, so a second call with the same point changes nothing. */
  method GrowTo(b: Box, x: real, y: real) returns (r: Box)
    ensures Contains(r, x, y)
    ensures Encloses(r, b)
    ensures forall c :: Encloses(c, b) && Contains(c, x, y) ==> Encloses(c, r)
    ensures Contains(b, x, y) ==> r == b
  {
    var x0, y0, x1, y1 := b.x0, b.y0, b.x1, b.y1;
    if x < x0 { x0 := x; }
    if x > x1 { x1 := x; }
    if y < y0 { y0 := y; }
    if y > y1 { y1 := y; }
    r := Box(x0, y0, x1, y1);
  }

  /** H·[x, y, 1] for a corner (x, y) of image 1. */
  function Corner(m: Mat3, x: int, y: int): Vec3 {
    Apply(m, Homogeneous(x as real, y as real))
  }

  /** The four corners of a w1 × h1 image all map to points at finite distance. */
  predicate CornersProjectable(m: Mat3, w1: int, h1: int) {
    && Corner(m, 0, 0).z != 0.0
    && Corner(m, w1, 0).z != 0.0
    && Corner(m, w1, h1).z != 0.0
    && Corner(m, 0, h1).z != 0.0
  }

  /** c holds image 2's frame and the four projected corners of image 1;
      no box covers a corner that H sends to infinity. */
  ghost predicate Covers(c: Box, m: Mat3, w1: int, h1: int, w2: int, h2: int) {
    && CornersProjectable(m, w1, h1)
    && Encloses(c, Box(0.0, 0.0, w2 as real, h2 as real))
    && Contains(c, Dehomogenise(Corner(m, 0, 0)).0, Dehomogenise(Corner(m, 0, 0)).1)
    && Contains(c, Dehomogenise(Corner(m, w1, 0)).0, Dehomogenise(Corner(m, w1, 0)).1)
    && Contains(c, Dehomogenise(Corner(m, w1, h1)).0, Dehomogenise(Corner(m, w1, h1)).1)
    && Contains(c, Dehomogenise(Corner(m, 0, h1)).0, Dehomogenise(Corner(m, 0, h1)).1)
  }

  /** b is the smallest box that covers image 2 and the projected image 1. */
  ghost predicate IsCanvasBox(b: Box, m: Mat3, w1: int, h1: int, w2: int, h2: int) {
    Covers(b, m, w1, h1, w2, h2) && forall c :: Covers(c, m, w1, h1, w2, h2) ==> Encloses(c, b)
  }

  /** v = H*v; v /= v[2] for the pixel (x, y): the point H sends it to. */
  method ProjectPoint(hm: array2<real>, x: int, y: int) returns (px: real, py: real)
    requires hm.Length0 == 3 && hm.Length1 == 3
    requires Corner(MatrixOf(hm), x, y).z != 0.0
    ensures (px, py) == Dehomogenise(Corner(MatrixOf(hm), x, y))
  {
    var v0, v1, v2 := x as real, y as real, 1.0;
    v0, v1, v2 := hm[0, 0] * v0 + hm[0, 1] * v1 + hm[0, 2] * v2,
                  hm[1, 0] * v0 + hm[1, 1] * v1 + hm[1, 2] * v2,
                  hm[2, 0] * v0 + hm[2, 1] * v1 + hm[2, 2] * v2;
    assert Vec3(v0, v1, v2) == Corner(MatrixOf(hm), x, y);
    px, py := v0 / v2, v1 / v2;
  }

  /** The bounding-box part of panorama: start from image 2's frame
      (0, 0, w2, h2) and grow it by the four projected corners of image 1.
      The result is the smallest box covering both, so it reaches at least
      from (0, 0) to (w2, h2). */
  method CanvasBounds(hm: array2<real>, w1: nat, h1: nat, w2: nat, h2: nat) returns (b: Box)
    requires hm.Length0 == 3 && hm.Length1 == 3
    requires CornersProjectable(MatrixOf(hm), w1, h1)
    ensures IsCanvasBox(b, MatrixOf(hm), w1, h1, w2, h2)
    ensures b.x0 <= 0.0 && b.y0 <= 0.0 && w2 as real <= b.x1 && h2 as real <= b.y1
  {
    b := Box(0.0, 0.0, w2 as real, h2 as real);
    var px, py := ProjectPoint(hm, 0, 0);
    b := GrowTo(b, px, py);
    px, py := ProjectPoint(hm, w1, 0);
    b := GrowTo(b, px, py);
    px, py := ProjectPoint(hm, w1, h1);
    b := GrowTo(b, px, py);
    px, py := ProjectPoint(hm, 0, h1);
    b := GrowTo(b, px, py);
  }

  /** The canvas box is determined by its inputs: two boxes that both are
      the smallest cover coincide. */
  lemma CanvasBoxUnique(b: Box, b': Box, m: Mat3, w1: int, h1: int, w2: int, h2: int)
    requires IsCanvasBox(b, m, w1, h1, w2, h2) && IsCanvasBox(b', m, w1, h1, w2, h2)
    ensures b == b'
  {
    assert Encloses(b, b') && Encloses(b', b);
  }

  lemma IdentityFixesCorner(x: int, y: int)
    ensures Corner(Identity, x, y).z == 1.0
    ensures Dehomogenise(Corner(Identity, x, y)) == (x as real, y as real)
  {
    assert Corner(Identity, x, y) == Vec3(x as real, y as real, 1.0);
  }

  /** The frame of both images: (0, 0) to the larger width and height. */
  function UnionFrame(w1: nat, h1: nat, w2: nat, h2: nat): Box {
    Box(0.0, 0.0, if w1 <= w2 then w2 as real else w1 as real, if h1 <= h2 then h2 as real else h1 as real)
  }

  /** When H leaves the four corners of image 1 where they are, the canvas
      box is the union of the two images' frames. */
  lemma FixedCornersCanvas(b: Box, m: Mat3, w1: nat, h1: nat, w2: nat, h2: nat)
    requires CornersProjectable(m, w1, h1)
    requires Dehomogenise(Corner(m, 0, 0)) == (0.0, 0.0)
    requires Dehomogenise(Corner(m, w1, 0)) == (w1 as real, 0.0)
    requires Dehomogenise(Corner(m, w1, h1)) == (w1 as real, h1 as real)
    requires Dehomogenise(Corner(m, 0, h1)) == (0.0, h1 as real)
    requires IsCanvasBox(b, m, w1, h1, w2, h2)
    ensures b == UnionFrame(w1, h1, w2, h2)
  {
    var u := UnionFrame(w1, h1, w2, h2);
    assert Covers(u, m, w1, h1, w2, h2);
    assert Encloses(u, b) && Encloses(b, u);
  }

  /** With H the identity, each corner of image 1 stays where it is, so the
      canvas is exactly the union of the two images' frames. */
  lemma IdentityCanvasIsUnion(b: Box, w1: nat, h1: nat, w2: nat, h2: nat)
    requires IsCanvasBox(b, Identity, w1, h1, w2, h2)
    ensures b == UnionFrame(w1, h1, w2, h2)
  {
    IdentityFixesCorner(0, 0);
    IdentityFixesCorner(w1, 0);
    IdentityFixesCorner(w1, h1);
    IdentityFixesCorner(0, h1);
    FixedCornersCanvas(b, Identity, w1, h1, w2, h2);
  }
}
