/** `screenTransform(orientation:viewPortSize:captureSize:)`: the affine transform that takes
    a captured image's pixel coordinates to view-port coordinates. It normalises to the unit
    square, flips both axes in portrait, applies ARKit's display transform and scales to the
    view port. Transforms follow Core Graphics: a point is a row vector, so `t1.concatenating(t2)`
    applies `t1` first and `t2` second. */
module ScreenTransform {

  /** `CGAffineTransform(a, b, c, d, tx, ty)`: (x, y) goes to (a x + c y + tx, b x + d y + ty). */
  datatype Affine = Affine(a: real, b: real, c: real, d: real, tx: real, ty: real)

  datatype Point = Point(x: real, y: real)

  /** `CGSize`. */
  datatype Size = Size(width: real, height: real)

  /** `UIInterfaceOrientation`. */
  datatype Orientation = Unknown | Portrait | PortraitUpsideDown | LandscapeLeft | LandscapeRight

  predicate IsPortrait(o: Orientation)
  {
    o.Portrait? || o.PortraitUpsideDown?
  }

  /** Where the transform `t` takes the point `p`: the row vector (x, y, 1) times its matrix. */
  function Apply(t: Affine, p: Point): Point
  {
    Point(t.a * p.x + t.c * p.y + t.tx, t.b * p.x + t.d * p.y + t.ty)
  }

  /** `.identity`. */
  const Identity: Affine := Affine(1.0, 0.0, 0.0, 1.0, 0.0, 0.0)

  /** `CGAffineTransform(scaleX: sx, y: sy)`; `ScaleAt` says what it does to a point. */
  function Scale(sx: real, sy: real): Affine
  {
    Affine(sx, 0.0, 0.0, sy, 0.0, 0.0)
  }

  /** A scaling multiplies each coordinate by its factor. */
  lemma ScaleAt(sx: real, sy: real, p: Point)
    ensures Apply(Scale(sx, sy), p) == Point(sx * p.x, sy * p.y)
  {
  }

  /** `CGAffineTransform(translationX: dx, y: dy)`. */
  function Translate(dx: real, dy: real): (t: Affine)
    ensures forall p :: Apply(t, p) == Point(p.x + dx, p.y + dy)
  {
    Affine(1.0, 0.0, 0.0, 1.0, dx, dy)
  }

  lemma Distribute(k: real, u: real, v: real, w: real)
    ensures k * (u + v + w) == k * u + k * v + k * w
  {
  }

  /** The matrix product of `t1` and `t2` applies `t1` first, then `t2`. */
  lemma ProductApplies(t1: Affine, t2: Affine, r: Affine, p: Point)
    requires r == Affine(
      t1.a * t2.a + t1.b * t2.c,
      t1.a * t2.b + t1.b * t2.d,
      t1.c * t2.a + t1.d * t2.c,
      t1.c * t2.b + t1.d * t2.d,
      t1.tx * t2.a + t1.ty * t2.c + t2.tx,
      t1.tx * t2.b + t1.ty * t2.d + t2.ty)
    ensures Apply(r, p) == Apply(t2, Apply(t1, p))
  {
    var x, y := p.x, p.y;
    Distribute(t2.a, t1.a * x, t1.c * y, t1.tx);
    Distribute(t2.c, t1.b * x, t1.d * y, t1.ty);
    Distribute(t2.b, t1.a * x, t1.c * y, t1.tx);
    Distribute(t2.d, t1.b * x, t1.d * y, t1.ty);
    assert (t1.a * t2.a + t1.b * t2.c) * x == t2.a * (t1.a * x) + t2.c * (t1.b * x);
    assert (t1.c * t2.a + t1.d * t2.c) * y == t2.a * (t1.c * y) + t2.c * (t1.d * y);
    assert (t1.a * t2.b + t1.b * t2.d) * x == t2.b * (t1.a * x) + t2.d * (t1.b * x);
    assert (t1.c * t2.b + t1.d * t2.d) * y == t2.b * (t1.c * y) + t2.d * (t1.d * y);
  }

  /** `t1.concatenating(t2)`, the matrix product t1 * t2 in Core Graphics' row-vector
      convention: it applies `t1` first, then `t2`. */
  function Concat(t1: Affine, t2: Affine): (r: Affine)
    ensures forall p :: Apply(r, p) == Apply(t2, Apply(t1, p))
  {
    var r := Affine(
      t1.a * t2.a + t1.b * t2.c,
      t1.a * t2.b + t1.b * t2.d,
      t1.c * t2.a + t1.d * t2.c,
      t1.c * t2.b + t1.d * t2.d,
      t1.tx * t2.a + t1.ty * t2.c + t2.tx,
      t1.tx * t2.b + t1.ty * t2.d + t2.ty);
    assert forall p :: Apply(r, p) == Apply(t2, Apply(t1, p)) by {
      forall p {
        ProductApplies(t1, t2, r, p);
      }
    }
    r
  }

  /** `t.translatedBy(x: dx, y: dy)`: translate first, then `t`. */
  function TranslatedBy(t: Affine, dx: real, dy: real): (r: Affine)
    ensures forall p :: Apply(r, p) == Apply(t, Point(p.x + dx, p.y + dy))
  {
    Concat(Translate(dx, dy), t)
  }

  /** The flip of the portrait orientations, a half turn about (1/2, 1/2); the identity in
      every other orientation. The source builds the portrait flip as
      `CGAffineTransform(scaleX: -1, y: -1).translatedBy(x: -1, y: -1)`, which
      `FlipConstruction` shows is this transform. */
  function Flip(o: Orientation): (t: Affine)
    ensures !IsPortrait(o) ==> t == Identity
  {
    if IsPortrait(o) then Affine(-1.0, 0.0, 0.0, -1.0, 1.0, 1.0) else Identity
  }

  /** Scaling by -1 after translating by (-1, -1) is the portrait flip. */
  lemma FlipConstruction(o: Orientation)
    requires IsPortrait(o)
    ensures TranslatedBy(Scale(-1.0, -1.0), -1.0, -1.0) == Flip(o)
  {
  }

  /** In portrait the flip takes (x, y) to (1 - x, 1 - y). */
  lemma FlipReflects(o: Orientation, p: Point)
    requires IsPortrait(o)
    ensures Apply(Flip(o), p) == Point(1.0 - p.x, 1.0 - p.y)
  {
  }

  lemma Reciprocal(w: real)
    requires w != 0.0
    ensures (1.0 / w) * w == 1.0
  {
  }

  /** The capture size to the unit square, `CGAffineTransform(scaleX: 1 / width, y: 1 / height)`. */
  function Normalize(capture: Size): (t: Affine)
    requires capture.width != 0.0 && capture.height != 0.0
    ensures Apply(t, Point(0.0, 0.0)) == Point(0.0, 0.0)
    ensures Apply(t, Point(capture.width, capture.height)) == Point(1.0, 1.0)
  {
    Reciprocal(capture.width);
    Reciprocal(capture.height);
    Scale(1.0 / capture.width, 1.0 / capture.height)
  }

  /** A capture position taken through the four steps one at a time. */
  function Through(o: Orientation, viewport: Size, capture: Size, display: (Orientation, Size) -> Affine, p: Point): Point
    requires capture.width != 0.0 && capture.height != 0.0
  {
    var normalized := Apply(Normalize(capture), p);
    var flipped := Apply(Flip(o), normalized);
    var displayed := Apply(display(o, viewport), flipped);
    Apply(Scale(viewport.width, viewport.height), displayed)
  }

  /** `screenTransform`. ARKit's `displayTransform(for:viewportSize:)` is the parameter
      `display`. The result applies, in order, the normalisation, the flip, the display
      transform and the scaling to the view port. */
  function ScreenTransform(o: Orientation, viewport: Size, capture: Size, display: (Orientation, Size) -> Affine): (t: Affine)
    requires capture.width != 0.0 && capture.height != 0.0
    ensures forall p :: Apply(t, p) == Through(o, viewport, capture, display, p)
  {
    var normalizeFlip := Concat(Normalize(capture), Flip(o));
    var throughDisplay := Concat(normalizeFlip, display(o, viewport));
    Concat(throughDisplay, Scale(viewport.width, viewport.height))
  }

  /** A transform is determined by where it takes the origin and the two unit points. */
  lemma Extensional(t: Affine, u: Affine)
    requires Apply(t, Point(0.0, 0.0)) == Apply(u, Point(0.0, 0.0))
    requires Apply(t, Point(1.0, 0.0)) == Apply(u, Point(1.0, 0.0))
    requires Apply(t, Point(0.0, 1.0)) == Apply(u, Point(0.0, 1.0))
    ensures t == u
  {
  }

  /** Concatenation is associative, so the grouping of the chain does not matter. */
  lemma ConcatAssociative(t1: Affine, t2: Affine, t3: Affine)
    ensures Concat(Concat(t1, t2), t3) == Concat(t1, Concat(t2, t3))
  {
    Extensional(Concat(Concat(t1, t2), t3), Concat(t1, Concat(t2, t3)));
  }

  /** The identity is neutral on both sides. */
  lemma ConcatIdentity(t: Affine)
    ensures Concat(Identity, t) == t && Concat(t, Identity) == t
  {
  }

  /** Flipping twice gives the identity. */
  lemma FlipInvolution(o: Orientation)
    ensures Concat(Flip(o), Flip(o)) == Identity
  {
  }

  /** The flip maps the unit square onto itself: a normalised position stays normalised, and
      every normalised position is the image of one. */
  lemma FlipKeepsUnitSquare(o: Orientation, p: Point)
    requires 0.0 <= p.x <= 1.0 && 0.0 <= p.y <= 1.0
    ensures 0.0 <= Apply(Flip(o), p).x <= 1.0 && 0.0 <= Apply(Flip(o), p).y <= 1.0
    ensures exists q: Point :: 0.0 <= q.x <= 1.0 && 0.0 <= q.y <= 1.0 && Apply(Flip(o), q) == p
  {
    var q := Apply(Flip(o), p);
    if IsPortrait(o) {
      FlipReflects(o, p);
      FlipReflects(o, q);
    } else {
      ApplyIdentity(p);
      ApplyIdentity(q);
    }
    assert Apply(Flip(o), q) == p;
  }

  lemma ApplyIdentity(p: Point)
    ensures Apply(Identity, p) == p
  {
  }

  /** With the identity as display transform, the four steps reduce to normalising, flipping
      and scaling to the view port. */
  lemma ThroughWithoutDisplay(o: Orientation, viewport: Size, capture: Size, display: (Orientation, Size) -> Affine, p: Point)
    requires capture.width != 0.0 && capture.height != 0.0
    requires display(o, viewport) == Identity
    ensures Through(o, viewport, capture, display, p)
         == Apply(Scale(viewport.width, viewport.height), Apply(Flip(o), Apply(Normalize(capture), p)))
  {
    ApplyIdentity(Apply(Flip(o), Apply(Normalize(capture), p)));
  }

  lemma ScaleOfReciprocal(v: real, c: real, x: real)
    requires c != 0.0
    ensures v * ((1.0 / c) * x) == (v / c) * x
  {
  }

  lemma DivTimes(v: real, c: real)
    requires c != 0.0
    ensures (v / c) * c == v
  {
  }

  /** Normalising, then scaling to the view port, scales by the ratio of the two sizes. */
  lemma NormalizeThenScale(viewport: Size, capture: Size, p: Point)
    requires capture.width != 0.0 && capture.height != 0.0
    ensures Apply(Scale(viewport.width, viewport.height), Apply(Normalize(capture), p))
         == Point((viewport.width / capture.width) * p.x, (viewport.height / capture.height) * p.y)
  {
    ScaleAt(1.0 / capture.width, 1.0 / capture.height, p);
    ScaleOfReciprocal(viewport.width, capture.width, p.x);
    ScaleOfReciprocal(viewport.height, capture.height, p.y);
  }

  /** Outside portrait, with the identity as display transform, every capture position is
      scaled by the ratio of view port to capture size, axis by axis. */
  lemma LandscapeScalesEveryPoint(o: Orientation, viewport: Size, capture: Size, display: (Orientation, Size) -> Affine, p: Point)
    requires capture.width != 0.0 && capture.height != 0.0
    requires !IsPortrait(o) && display(o, viewport) == Identity
    ensures Through(o, viewport, capture, display, p)
         == Point((viewport.width / capture.width) * p.x, (viewport.height / capture.height) * p.y)
  {
    ThroughWithoutDisplay(o, viewport, capture, display, p);
    assert Flip(o) == Identity;
    ApplyIdentity(Apply(Normalize(capture), p));
    NormalizeThenScale(viewport, capture, p);
  }

  /** Outside portrait, with the identity as display transform, the screen transform is the
      scaling by `viewport / capture`, axis by axis. */
  lemma LandscapeIsScale(o: Orientation, viewport: Size, capture: Size, display: (Orientation, Size) -> Affine)
    requires capture.width != 0.0 && capture.height != 0.0
    requires !IsPortrait(o) && display(o, viewport) == Identity
    ensures ScreenTransform(o, viewport, capture, display)
         == Scale(viewport.width / capture.width, viewport.height / capture.height)
  {
    ThroughLandscapeIsScale(ScreenTransform(o, viewport, capture, display), o, viewport, capture, display);
  }

  /** Any transform that takes every point through the four steps is, outside portrait and
      with the identity as display transform, the scaling by `viewport / capture`. */
  lemma ThroughLandscapeIsScale(t: Affine, o: Orientation, viewport: Size, capture: Size, display: (Orientation, Size) -> Affine)
    requires capture.width != 0.0 && capture.height != 0.0
    requires !IsPortrait(o) && display(o, viewport) == Identity
    requires forall p :: Apply(t, p) == Through(o, viewport, capture, display, p)
    ensures t == Scale(viewport.width / capture.width, viewport.height / capture.height)
  {
    ThroughLandscapeAt(t, o, viewport, capture, display, Point(0.0, 0.0));
    ThroughLandscapeAt(t, o, viewport, capture, display, Point(1.0, 0.0));
    ThroughLandscapeAt(t, o, viewport, capture, display, Point(0.0, 1.0));
    ScalesAtUnitPoints(t, viewport.width / capture.width, viewport.height / capture.height);
  }

  lemma ThroughLandscapeAt(t: Affine, o: Orientation, viewport: Size, capture: Size, display: (Orientation, Size) -> Affine, p: Point)
    requires capture.width != 0.0 && capture.height != 0.0
    requires !IsPortrait(o) && display(o, viewport) == Identity
    requires forall q :: Apply(t, q) == Through(o, viewport, capture, display, q)
    ensures Apply(t, p) == Point((viewport.width / capture.width) * p.x, (viewport.height / capture.height) * p.y)
  {
    LandscapeScalesEveryPoint(o, viewport, capture, display, p);
  }

  /** A transform that scales the origin and the two unit points by (sx, sy) is `Scale(sx, sy)`. */
  lemma ScalesAtUnitPoints(t: Affine, sx: real, sy: real)
    requires Apply(t, Point(0.0, 0.0)) == Point(sx * 0.0, sy * 0.0)
    requires Apply(t, Point(1.0, 0.0)) == Point(sx * 1.0, sy * 0.0)
    requires Apply(t, Point(0.0, 1.0)) == Point(sx * 0.0, sy * 1.0)
    ensures t == Scale(sx, sy)
  {
  }

  /** Outside portrait, with the identity as display transform, the capture's far corner
      lands on the view port's. */
  lemma LandscapeScalesOntoViewport(o: Orientation, viewport: Size, capture: Size, display: (Orientation, Size) -> Affine)
    requires capture.width != 0.0 && capture.height != 0.0
    requires !IsPortrait(o) && display(o, viewport) == Identity
    ensures Through(o, viewport, capture, display, Point(capture.width, capture.height))
         == Point(viewport.width, viewport.height)
  {
    LandscapeScalesEveryPoint(o, viewport, capture, display, Point(capture.width, capture.height));
    DivTimes(viewport.width, capture.width);
    DivTimes(viewport.height, capture.height);
  }

  /** In portrait, with the identity as display transform, the image is turned half way round:
      the capture's origin lands on the view port's far corner. */
  lemma PortraitTurnsHalfWay(o: Orientation, viewport: Size, capture: Size, display: (Orientation, Size) -> Affine)
    requires capture.width != 0.0 && capture.height != 0.0
    requires IsPortrait(o) && display(o, viewport) == Identity
    ensures Through(o, viewport, capture, display, Point(0.0, 0.0)) == Point(viewport.width, viewport.height)
  {
    ThroughWithoutDisplay(o, viewport, capture, display, Point(0.0, 0.0));
    assert Apply(Normalize(capture), Point(0.0, 0.0)) == Point(0.0, 0.0);
    FlipReflects(o, Point(0.0, 0.0));
    assert Apply(Flip(o), Point(0.0, 0.0)) == Point(1.0, 1.0);
  }

  /** Outside portrait, with the identity as display transform, the origin stays put. */
  lemma LandscapeKeepsOrigin(o: Orientation, viewport: Size, capture: Size, display: (Orientation, Size) -> Affine)
    requires capture.width != 0.0 && capture.height != 0.0
    requires !IsPortrait(o) && display(o, viewport) == Identity
    ensures Through(o, viewport, capture, display, Point(0.0, 0.0)) == Point(0.0, 0.0)
  {
    ThroughWithoutDisplay(o, viewport, capture, display, Point(0.0, 0.0));
    ApplyIdentity(Point(0.0, 0.0));
  }

  /** In portrait the normalised, flipped far corner of the capture is the origin. */
  lemma FlippedCorner(o: Orientation, capture: Size)
    requires capture.width != 0.0 && capture.height != 0.0 && IsPortrait(o)
    ensures Apply(Flip(o), Apply(Normalize(capture), Point(capture.width, capture.height))) == Point(0.0, 0.0)
  {
    FlipReflects(o, Point(1.0, 1.0));
  }

  /** In portrait, with the identity as display transform, the capture's far corner lands on
      the view port's origin. */
  lemma PortraitCornerToOrigin(o: Orientation, viewport: Size, capture: Size, display: (Orientation, Size) -> Affine)
    requires capture.width != 0.0 && capture.height != 0.0
    requires IsPortrait(o) && display(o, viewport) == Identity
    ensures Through(o, viewport, capture, display, Point(capture.width, capture.height)) == Point(0.0, 0.0)
  {
    ThroughWithoutDisplay(o, viewport, capture, display, Point(capture.width, capture.height));
    FlippedCorner(o, capture);
  }
}
