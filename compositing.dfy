/** The pixel loop of panorama: a white canvas the size of the bounding box,
    each pixel of which takes image 2's colour at the same place, image 1's
    colour at the back-mapped place, their byte-wise average, or stays white. */
module Compositing {
  import opened Geometry
  import opened BoundingBox

  newtype byte = b: int | 0 <= b < 256

  datatype Color = Color(r: byte, g: byte, b: byte)

  const White := Color(255, 255, 255)

  datatype Option<T> = None | Some(value: T)

  /** The C++ conversion int(r): the integer part, rounding toward zero. */
  function Trunc(r: real): (n: int)
    ensures 0.0 <= r ==> 0 <= n && n as real <= r < n as real + 1.0
    ensures r <= 0.0 ==> n <= 0 && n as real - 1.0 < r <= n as real
  {
    if r >= 0.0 then r.Floor else -((-r).Floor)
  }

  /** The canvas column of the pixel x: int(x - x0) is x - int(x0) when x0 <= 0. */
  lemma CanvasOffset(x: int, x0: real)
    requires x0 <= 0.0 && Trunc(x0) <= x
    ensures Trunc(x as real - x0) == x - Trunc(x0)
  {
    var t := Trunc(x0);
    assert t as real - 1.0 < x0 <= t as real;
    assert (x - t) as real <= x as real - x0 < (x - t) as real + 1.0;
  }

  /** The pixels int(x0) <= x < int(x1) fit in a canvas int(x1 - x0) wide. */
  lemma LoopFitsCanvas(x0: real, x1: real)
    requires x0 <= 0.0 <= x1
    ensures Trunc(x1) - Trunc(x0) <= Trunc(x1 - x0)
  {
    assert Trunc(x1) as real - Trunc(x0) as real <= x1 - x0;
  }

  /** The canvas int(x1 - x0) is wider than the loop range int(x1) - int(x0)
      by at most one, and by exactly one when the parts of x1 and -x0 cut off
      by int add up to at least 1. */
  lemma CanvasSlack(x0: real, x1: real)
    requires x0 <= 0.0 <= x1
    ensures var slack := Trunc(x1 - x0) - (Trunc(x1) - Trunc(x0));
            (slack == 0 || slack == 1)
            && (slack == 1 <==> (x1 - Trunc(x1) as real) + (Trunc(x0) as real - x0) >= 1.0)
  {
    var a, t := Trunc(x1), Trunc(x0);
    var f := (x1 - a as real) + (t as real - x0);
    assert 0.0 <= f < 2.0;
    assert x1 - x0 == (a - t) as real + f;
    var n := Trunc(x1 - x0);
    assert n as real <= x1 - x0 < n as real + 1.0;
    if f >= 1.0 {
      assert n == a - t + 1;
    } else {
      assert n == a - t;
    }
  }

  /** A box from x0 = -0.5 to x1 = 10.5 gives a canvas 11 columns wide, while
      the loop writes only the columns 0 .. 9: column 10 stays white. */
  lemma FractionalEdgesLeaveWhiteColumn(img1: array2<Color>, img2: array2<Color>, backMap: (int, int) -> (int, int),
                                        y0: real, y1: real, j: int)
    ensures var b := Box(-0.5, y0, 10.5, y1);
            Trunc(b.x1 - b.x0) == 11 && Trunc(b.x1) - Trunc(b.x0) == 10
            && CanvasPixel(img1, img2, backMap, b, 10, j) == White
  {
    assert Trunc(-0.5) == 0 && Trunc(10.5) == 10 && Trunc(11.0) == 11;
  }

  /** One channel of col1 / byte(2) + col2 / byte(2), in byte arithmetic: the
      sum never wraps, stays at most 254 and is the mean of the two values
      rounded down, or one less when both are odd. */
  function HalfSum(a: byte, b: byte): (r: byte)
    ensures r <= 254
    ensures r as int == a as int / 2 + b as int / 2
    ensures r as int <= (a as int + b as int) / 2 <= r as int + 1
  {
    ((a as int / 2 + b as int / 2) % 256) as byte
  }

  /** The blend of two colours, channel by channel. */
  function Average(c1: Color, c2: Color): (c: Color)
    ensures c.r <= 254 && c.g <= 254 && c.b <= 254
  {
    Color(HalfSum(c1.r, c2.r), HalfSum(c1.g, c2.g), HalfSum(c1.b, c2.b))
  }

  /** (x, y) lies in the image. */
  predicate InBounds(img: array2<Color>, x: int, y: int) {
    0 <= x < img.Length0 && 0 <= y < img.Length1
  }

  /** The colour of img at (x, y) when that pixel exists. */
  function Sample(img: array2<Color>, x: int, y: int): (s: Option<Color>)
    reads img
    ensures s.Some? <==> InBounds(img, x, y)
    ensures s.Some? ==> s.value == img[x, y]
  {
    if InBounds(img, x, y) then Some(img[x, y]) else None
  }

  /** What a pixel receives from its two samples: their average, the one
      sample there is, or nothing. */
  function Blend(s1: Option<Color>, s2: Option<Color>): (o: Option<Color>)
    ensures o.None? <==> s1.None? && s2.None?
    ensures s1.None? ==> o == s2
    ensures s2.None? ==> o == s1
    ensures s1.Some? && s2.Some? ==> o == Some(Average(s1.value, s2.value))
  {
    match (s1, s2)
    case (Some(c1), Some(c2)) => Some(Average(c1, c2))
    case (Some(_), None) => s1
    case (None, _) => s2
  }

  /** The outcome for the panorama pixel (x, y): image 2 sampled in place and
      image 1 sampled at backMap(x, y), the inverse homography already
      dehomogenised and truncated. */
  function Composite(img1: array2<Color>, img2: array2<Color>, backMap: (int, int) -> (int, int), x: int, y: int): Option<Color>
    reads img1, img2
  {
    Blend(Sample(img1, backMap(x, y).0, backMap(x, y).1), Sample(img2, x, y))
  }

  /** The colour the canvas pixel (i, j) ends with: the loop visits the pixels
      int(x0) <= x < int(x1), int(y0) <= y < int(y1) and writes each at
      (x - int(x0), y - int(y0)); whatever it does not write stays white. */
  function CanvasPixel(img1: array2<Color>, img2: array2<Color>, backMap: (int, int) -> (int, int), b: Box, i: int, j: int): Color
    reads img1, img2
  {
    if 0 <= i < Trunc(b.x1) - Trunc(b.x0) && 0 <= j < Trunc(b.y1) - Trunc(b.y0) then
      match Composite(img1, img2, backMap, i + Trunc(b.x0), j + Trunc(b.y0))
      case Some(c) => c
      case None => White
    else White
  }

  /** Every pixel of image 2 lands on the canvas, at (x - int(x0), y - int(y0)),
      and ends with its own colour, or with the blend of it and image 1's
      sample when the back-mapped position falls inside image 1. */
  lemma Image2OnCanvas(img1: array2<Color>, img2: array2<Color>, backMap: (int, int) -> (int, int), b: Box, x: int, y: int)
    requires b.x0 <= 0.0 && b.y0 <= 0.0 && img2.Length0 as real <= b.x1 && img2.Length1 as real <= b.y1
    requires InBounds(img2, x, y)
    ensures 0 <= x - Trunc(b.x0) < Trunc(b.x1 - b.x0) && 0 <= y - Trunc(b.y0) < Trunc(b.y1 - b.y0)
    ensures CanvasPixel(img1, img2, backMap, b, x - Trunc(b.x0), y - Trunc(b.y0))
            == match Sample(img1, backMap(x, y).0, backMap(x, y).1)
               case Some(c1) => Average(c1, img2[x, y])
               case None => img2[x, y]
  {
    assert img2.Length0 <= Trunc(b.x1) && img2.Length1 <= Trunc(b.y1);
    LoopFitsCanvas(b.x0, b.x1);
    LoopFitsCanvas(b.y0, b.y1);
  }

  /** Two images in the same frame (the back-mapping leaves (x, y) in place):
      a pixel inside both ends as the average of their colours there. */
  lemma SameFrameAverages(img1: array2<Color>, img2: array2<Color>, backMap: (int, int) -> (int, int), b: Box, x: int, y: int)
    requires b.x0 <= 0.0 && b.y0 <= 0.0 && img2.Length0 as real <= b.x1 && img2.Length1 as real <= b.y1
    requires backMap(x, y) == (x, y)
    requires InBounds(img1, x, y) && InBounds(img2, x, y)
    ensures CanvasPixel(img1, img2, backMap, b, x - Trunc(b.x0), y - Trunc(b.y0)) == Average(img1[x, y], img2[x, y])
  {
    Image2OnCanvas(img1, img2, backMap, b, x, y);
  }

  /** The body of the inner loop for the pixel (x, y): sample both images and
      write the blend at (x - x0, y - y0), or write nothing; no other canvas
      pixel changes. */
  method CompositePixel(canvas: array2<Color>, img1: array2<Color>, img2: array2<Color>,
                        backMap: (int, int) -> (int, int), b: Box, x: int, y: int)
    requires canvas != img1 && canvas != img2
    requires b.x0 <= 0.0 && b.y0 <= 0.0
    requires Trunc(b.x0) <= x && x - Trunc(b.x0) < canvas.Length0
    requires Trunc(b.y0) <= y && y - Trunc(b.y0) < canvas.Length1
    modifies canvas
    ensures forall i, j :: InBounds(canvas, i, j) ==>
              canvas[i, j] == if i == x - Trunc(b.x0) && j == y - Trunc(b.y0)
                              then match Composite(img1, img2, backMap, x, y)
                                   case Some(c) => c
                                   case None => old(canvas[i, j])
                              else old(canvas[i, j])
  {
    var col1, col2 := White, White;
    var img1ok, img2ok := false, false;

    if 0 <= x < img2.Length0 && 0 <= y < img2.Length1 {
      col2 := img2[x, y];
      img2ok := true;
    }

    var (xp, yp) := backMap(x, y);
    if 0 <= xp < img1.Length0 && 0 <= yp < img1.Length1 {
      col1 := img1[xp, yp];
      img1ok := true;
    }

    CanvasOffset(x, b.x0);
    CanvasOffset(y, b.y0);
    var i, j := Trunc(x as real - b.x0), Trunc(y as real - b.y0);
    if img1ok && img2ok {
      canvas[i, j] := Average(col1, col2);
    } else if img1ok {
      canvas[i, j] := col1;
    } else if img2ok {
      canvas[i, j] := col2;
    }
  }

  /** The nested pixel loop over the bounding box b on a canvas that starts
      white: afterwards every canvas pixel is CanvasPixel of its position. */
  method Fill(canvas: array2<Color>, img1: array2<Color>, img2: array2<Color>,
              backMap: (int, int) -> (int, int), b: Box)
    requires canvas != img1 && canvas != img2
    requires b.x0 <= 0.0 <= b.x1 && b.y0 <= 0.0 <= b.y1
    requires canvas.Length0 == Trunc(b.x1 - b.x0) && canvas.Length1 == Trunc(b.y1 - b.y0)
    requires forall i, j :: InBounds(canvas, i, j) ==> canvas[i, j] == White
    modifies canvas
    ensures forall i, j :: InBounds(canvas, i, j) ==> canvas[i, j] == CanvasPixel(img1, img2, backMap, b, i, j)
  {
    var sx, ex := Trunc(b.x0), Trunc(b.x1);
    var sy, ey := Trunc(b.y0), Trunc(b.y1);
    LoopFitsCanvas(b.x0, b.x1);
    LoopFitsCanvas(b.y0, b.y1);

    var x := sx;
    while x < ex
      invariant sx <= x <= ex
      invariant forall i, j :: InBounds(canvas, i, j) ==>
                  canvas[i, j] == if i < x - sx then CanvasPixel(img1, img2, backMap, b, i, j) else White
    {
      var y := sy;
      while y < ey
        invariant sy <= y <= ey
        invariant forall i, j :: InBounds(canvas, i, j) ==>
                    canvas[i, j] == if i < x - sx || (i == x - sx && j < y - sy)
                                    then CanvasPixel(img1, img2, backMap, b, i, j) else White
      {
        CompositePixel(canvas, img1, img2, backMap, b, x, y);
        y := y + 1;
      }
      x := x + 1;
    }
  }

  /** panorama: the bounding box of the two images, then a white canvas of
      int(x1 - x0) × int(y1 - y0) pixels filled by the pixel loop. */
  method Panorama(img1: array2<Color>, img2: array2<Color>, hm: array2<real>, backMap: (int, int) -> (int, int))
    returns (b: Box, canvas: array2<Color>)
    requires hm.Length0 == 3 && hm.Length1 == 3
    requires CornersProjectable(MatrixOf(hm), img1.Length0, img1.Length1)
    ensures IsCanvasBox(b, MatrixOf(hm), img1.Length0, img1.Length1, img2.Length0, img2.Length1)
    ensures fresh(canvas)
    ensures canvas.Length0 == Trunc(b.x1 - b.x0) && canvas.Length1 == Trunc(b.y1 - b.y0)
    ensures forall i, j :: InBounds(canvas, i, j) ==> canvas[i, j] == CanvasPixel(img1, img2, backMap, b, i, j)
  {
    b := CanvasBounds(hm, img1.Length0, img1.Length1, img2.Length0, img2.Length1);
    canvas := new Color[Trunc(b.x1 - b.x0), Trunc(b.y1 - b.y0)]((_, _) => White);
    Fill(canvas, img1, img2, backMap, b);
  }
}
