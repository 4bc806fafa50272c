/**
 * `RaycasterManager.setMousePosition`: the affine map from canvas pixels to
 * normalised device coordinates, with the Y axis inverted.
 */
module Raycaster {
  /** Normalised device coordinates of the pointer. */
  datatype Pointer = Pointer(x: real, y: real)

  /** `x = (clientX / width) * 2 - 1`, `y = -(clientY / height) * 2 + 1`.
      The four corners of the canvas map to the corners of [-1, 1]², the
      top-left pixel to (-1, 1), and a pixel inside the canvas stays inside. */
  function NormalizePointer(clientX: real, clientY: real, width: real, height: real): (p: Pointer)
    requires width != 0.0 && height != 0.0
    ensures clientX == 0.0 ==> p.x == -1.0
    ensures clientX == width ==> p.x == 1.0
    ensures clientY == 0.0 ==> p.y == 1.0
    ensures clientY == height ==> p.y == -1.0
    ensures 0.0 <= clientX <= width ==> -1.0 <= p.x <= 1.0
    ensures 0.0 <= clientY <= height ==> -1.0 <= p.y <= 1.0
  {
    Pointer((clientX / width) * 2.0 - 1.0, -(clientY / height) * 2.0 + 1.0)
  }

  /** The pixel a normalised pointer came from. */
  function DenormalizePointer(p: Pointer, width: real, height: real): (pixel: (real, real)) {
    ((p.x + 1.0) / 2.0 * width, (1.0 - p.y) / 2.0 * height)
  }

  /** Denormalising undoes the normalisation: the normalised coordinates give back the pixel
      it was computed from. */
  lemma NormalizeRoundTrip(clientX: real, clientY: real, width: real, height: real)
    requires width != 0.0 && height != 0.0
    ensures DenormalizePointer(NormalizePointer(clientX, clientY, width, height), width, height) == (clientX, clientY)
  {
    var p := NormalizePointer(clientX, clientY, width, height);
    assert (p.x + 1.0) / 2.0 == clientX / width;
    assert (1.0 - p.y) / 2.0 == clientY / height;
    DivMulCancel(clientX, width);
    DivMulCancel(clientY, height);
    var px := DenormalizePointer(p, width, height);
    assert px.0 == clientX;
    assert px.1 == clientY;
  }

  /** Normalising undoes denormalising: every point of the normalised plane
      is the image of exactly one pixel. */
  lemma DenormalizeRoundTrip(p: Pointer, width: real, height: real)
    requires width != 0.0 && height != 0.0
    ensures var px := DenormalizePointer(p, width, height);
      NormalizePointer(px.0, px.1, width, height) == p
  {
    MulDivCancel((p.x + 1.0) / 2.0, width);
    MulDivCancel((1.0 - p.y) / 2.0, height);
  }

  /** With the camera's aspect ratio equal to the canvas's width over its
      height, equal pixel steps across and down move the normalised pointer
      in the same proportion as the projection stretches the two axes: a
      horizontal step times the aspect equals the matching vertical step. */
  lemma PixelStepsFollowAspect(clientX: real, clientY: real, d: real, width: real, height: real, aspect: real)
    requires width != 0.0 && height != 0.0
    requires aspect == width / height
    ensures var p := NormalizePointer(clientX, clientY, width, height);
      (NormalizePointer(clientX + d, clientY, width, height).x - p.x) * aspect
        == p.y - NormalizePointer(clientX, clientY + d, width, height).y
  {
    assert (clientX + d) / width - clientX / width == d / width;
    assert (clientY + d) / height - clientY / height == d / height;
    assert d / width * (width / height) == d / height;
  }

  lemma DivMulCancel(a: real, w: real)
    requires w != 0.0
    ensures a / w * w == a
  {
  }

  lemma MulDivCancel(a: real, w: real)
    requires w != 0.0
    ensures a * w / w == a
  {
  }

  /** x grows strictly with clientX; y falls strictly as clientY grows. */
  lemma NormalizeMonotone(x1: real, x2: real, y1: real, y2: real, width: real, height: real)
    requires width > 0.0 && height > 0.0
    requires x1 < x2 && y1 < y2
    ensures NormalizePointer(x1, y1, width, height).x < NormalizePointer(x2, y2, width, height).x
    ensures NormalizePointer(x1, y1, width, height).y > NormalizePointer(x2, y2, width, height).y
  {
    DivStrict(x1, x2, width);
    DivStrict(y1, y2, height);
  }

  /** Dividing by a positive number keeps a strict order. */
  lemma DivStrict(a: real, b: real, n: real)
    requires 0.0 < n && a < b
    ensures a / n < b / n
  {
    DivPositive(b - a, n);
    assert b / n - a / n == (b - a) / n;
  }

  /** Dividing by a positive number keeps a weak order. */
  lemma DivMonotone(a: real, b: real, n: real)
    requires 0.0 < n && a <= b
    ensures a / n <= b / n
  {
    if a < b {
      DivStrict(a, b, n);
    }
  }

  lemma DivPositive(a: real, n: real)
    requires 0.0 < a && 0.0 < n
    ensures a / n > 0.0
  {
    assert a / n * n == a;
  }
}
