/** `detectHeight()` of the export screen. It estimates the height of the nearest body in
    front of the camera in two phases. First it casts rays through a horizontal segment of the
    view around its centre, one point apart, and keeps the nearest hit. Then it walks a probe
    point around that hit in 0.03-unit steps, in horizontal sweeps that climb row by row to
    2 units above it and then descend to 2 units below it. It casts a ray towards each probe
    and records the lowest and highest hit that lies within 0.2 of the hit's depth. */
module HeightScan {
  import opened Wrappers

  /** `SIMD3<Float>`. */
  datatype Vec3 = Vec3(x: real, y: real, z: real)

  /** A ray through a screen point: `ray(through:)`'s origin and direction. */
  datatype Ray = Ray(origin: Vec3, direction: Vec3)

  /** The first (nearest) `CollisionCastHit` of a ray cast. */
  datatype Hit = Hit(position: Vec3, distance: real)

  /** `CGPoint` and the size of `arView.bounds`. */
  datatype ScreenPoint = ScreenPoint(x: real, y: real)
  datatype Bounds = Bounds(width: real, height: real)

  /** `confidence`: the step of the probe walk. */
  const Step: real := 0.03
  /** `maxHorizontalDistance` and `maxVertialDistance`. */
  const MaxHorizontal: real := 0.5
  const MaxVertical: real := 2.0
  /** Half the width of the depth band a hit must fall in. */
  const DepthBand: real := 0.2
  /** The initial `closestDistance`, and the bounds `minVerticalPosition` and
      `maxVerticalPosition` start from. */
  const Far: real := 9999.0

  // ---------------------------------------------------------------------------------------------
  // Phase 1: the nearest hit along the middle of the view

  /** The k-th screen point of the scan: it starts a sixth of the width left of the centre
      and moves one point right each time. */
  function ProbeLocation(view: Bounds, k: nat): (location: ScreenPoint)
    ensures location.x == view.width / 3.0 + k as real
    ensures location.y == view.height / 2.0
  {
    ScreenPoint(view.width / 2.0 - view.width / 6.0 + k as real, view.height / 2.0)
  }

  /** The scan stops at a sixth of the width right of the centre. */
  function SweepEnd(view: Bounds): real
  {
    view.width / 2.0 + view.width / 6.0
  }

  function Ceiling(x: real): int
  {
    -((-x).Floor)
  }

  /** The number of screen points the scan casts through: the first location at or past the
      end is the n-th. */
  function SweepCount(view: Bounds): (n: nat)
    ensures ProbeLocation(view, n).x >= SweepEnd(view)
    ensures n > 0 ==> ProbeLocation(view, n - 1).x < SweepEnd(view)
  {
    if view.width <= 0.0 then 0 else Ceiling(view.width / 3.0)
  }

  /** Locations before the n-th are short of the end; those from it on are not. */
  lemma BeforeSweepEnd(view: Bounds, k: nat)
    ensures k < SweepCount(view) <==> ProbeLocation(view, k).x < SweepEnd(view)
  {
    var n := SweepCount(view);
    if k < n {
      assert ProbeLocation(view, k).x <= ProbeLocation(view, n - 1).x;
    }
  }

  /** The first hit of the ray through the k-th location. */
  function ProbeHit(view: Bounds, rayThrough: ScreenPoint -> Ray, cast: (Vec3, Vec3) -> Option<Hit>, k: nat): Option<Hit>
  {
    var ray := rayThrough(ProbeLocation(view, k));
    cast(ray.origin, ray.direction)
  }

  /** `closestRaycastHitDistance` and `closestRaycastHitPoint`. */
  datatype Nearest = Nearest(distance: real, point: Option<Vec3>)

  /** The nearest hit among the first n locations: starting from 9999 and no point, a hit
      replaces the current one when strictly nearer. */
  function ClosestAmong(view: Bounds, rayThrough: ScreenPoint -> Ray, cast: (Vec3, Vec3) -> Option<Hit>, n: nat): (c: Nearest)
    ensures c.point.None? <==> c.distance == Far
    ensures c.distance <= Far
    ensures forall k :: 0 <= k < n && ProbeHit(view, rayThrough, cast, k).Some? ==>
      c.distance <= ProbeHit(view, rayThrough, cast, k).value.distance
  {
    if n == 0 then Nearest(Far, None)
    else
      var c := ClosestAmong(view, rayThrough, cast, n - 1);
      match ProbeHit(view, rayThrough, cast, n - 1)
      case None => c
      case Some(hit) => if hit.distance < c.distance then Nearest(hit.distance, Some(hit.position)) else c
  }

  /** The scan finds no point exactly when no location gives a hit nearer than 9999. */
  lemma {:induction false} ClosestNoneIff(view: Bounds, rayThrough: ScreenPoint -> Ray, cast: (Vec3, Vec3) -> Option<Hit>, n: nat)
    ensures ClosestAmong(view, rayThrough, cast, n).point.None? <==>
      forall k :: 0 <= k < n && ProbeHit(view, rayThrough, cast, k).Some? ==> ProbeHit(view, rayThrough, cast, k).value.distance >= Far
  {
    if n > 0 {
      ClosestNoneIff(view, rayThrough, cast, n - 1);
    }
  }

  /** The k-th location's hit is at the distance and point of `c`, and no earlier
      location's hit is as near. */
  predicate FirstNearestAt(view: Bounds, rayThrough: ScreenPoint -> Ray, cast: (Vec3, Vec3) -> Option<Hit>, k: nat, c: Nearest)
  {
    && ProbeHit(view, rayThrough, cast, k).Some?
    && Some(ProbeHit(view, rayThrough, cast, k).value.position) == c.point
    && ProbeHit(view, rayThrough, cast, k).value.distance == c.distance
    && forall l :: 0 <= l < k && ProbeHit(view, rayThrough, cast, l).Some? ==>
         ProbeHit(view, rayThrough, cast, l).value.distance > c.distance
  }

  /** A point found is that of the first location whose hit is nearest. */
  lemma {:induction false} ClosestIsFirstNearest(view: Bounds, rayThrough: ScreenPoint -> Ray, cast: (Vec3, Vec3) -> Option<Hit>, n: nat)
    requires ClosestAmong(view, rayThrough, cast, n).point.Some?
    ensures exists k :: 0 <= k < n && FirstNearestAt(view, rayThrough, cast, k, ClosestAmong(view, rayThrough, cast, n))
  {
    var c := ClosestAmong(view, rayThrough, cast, n);
    var before := ClosestAmong(view, rayThrough, cast, n - 1);
    if c == before {
      ClosestIsFirstNearest(view, rayThrough, cast, n - 1);
    } else {
      var k := n - 1;
      assert ProbeHit(view, rayThrough, cast, k).Some?;
      forall l | 0 <= l < k && ProbeHit(view, rayThrough, cast, l).Some?
        ensures ProbeHit(view, rayThrough, cast, l).value.distance > c.distance
      {
      }
      assert FirstNearestAt(view, rayThrough, cast, k, c);
    }
  }

  /** The ray the scan ends with, which phase 2 casts from: the one through the last location
      tried, or through the first when there is none. */
  function LastRay(view: Bounds, rayThrough: ScreenPoint -> Ray): Ray
  {
    var n := SweepCount(view);
    rayThrough(ProbeLocation(view, if n == 0 then 0 else n - 1))
  }

  /** Phase 1: casts through each location in turn and keeps the nearest hit. */
  method FindClosest(view: Bounds, rayThrough: ScreenPoint -> Ray, cast: (Vec3, Vec3) -> Option<Hit>)
    returns (closest: Option<Vec3>, ray: Ray)
    ensures closest == ClosestAmong(view, rayThrough, cast, SweepCount(view)).point
    ensures ray == LastRay(view, rayThrough)
  {
    var offset := view.width / 6.0;
    var location := ScreenPoint(view.width / 2.0 - offset, view.height / 2.0);
    ray := rayThrough(location);
    var closestDistance := Far;
    closest := None;
    ghost var k: nat := 0;
    while true
      invariant location == ProbeLocation(view, k) && k <= SweepCount(view)
      invariant Nearest(closestDistance, closest) == ClosestAmong(view, rayThrough, cast, k)
      invariant ray == rayThrough(ProbeLocation(view, if k == 0 then 0 else k - 1))
      decreases SweepCount(view) - k
    {
      BeforeSweepEnd(view, k);
      if location.x >= view.width / 2.0 + offset {
        break;
      }
      ray := rayThrough(location);
      var hit := cast(ray.origin, ray.direction);
      if hit.None? {
        location := location.(x := location.x + 1.0);
        k := k + 1;
        continue;
      }
      if hit.value.distance < closestDistance {
        closestDistance := hit.value.distance;
        closest := Some(hit.value.position);
      }
      location := location.(x := location.x + 1.0);
      k := k + 1;
    }
  }

  // ---------------------------------------------------------------------------------------------
  // Phase 2: the probe walk as the source writes it, on positions

  /** `leftRightDirection` and `upDownDirection`. */
  datatype Horizontal = Right | Left
  datatype Vertical = Up | Down

  /** The walk's state: both directions and `tempPoint`. */
  datatype Walker = Walker(horizontal: Horizontal, vertical: Vertical, probe: Vec3)

  /** One pass through the if-chain that moves `tempPoint`, around the closest point `cp`;
      `None` is the `break`. Sweeping right, step right until past `cp.x + 1/2`, then turn
      left from `cp.x`. Sweeping left, step left; going up and above `cp.y + 2`, turn down
      and sweep right from (`cp.x`, `cp.y - 0.03`); going down and below `cp.y - 2`, stop;
      past `cp.x - 1/2`, sweep right again from `cp.x`, one row further up or down. */
  function Advance(cp: Vec3, w: Walker): (next: Option<Walker>)
    ensures next.None? <==> w.horizontal == Left && w.vertical == Down && w.probe.y < cp.y - MaxVertical
    ensures next.Some? ==> next.value.probe.z == w.probe.z
    ensures next.Some? && next.value.horizontal == w.horizontal ==>
      && next.value.vertical == w.vertical
      && next.value.probe.y == w.probe.y
      && next.value.probe.x == (if w.horizontal == Right then w.probe.x + Step else w.probe.x - Step)
    ensures next.Some? && next.value.horizontal != w.horizontal ==> next.value.probe.x == cp.x
    ensures next.Some? && next.value.vertical != w.vertical ==>
      w.vertical == Up && next.value.horizontal == Right && next.value.probe.y == cp.y - Step
  {
    var p := w.probe;
    match w.horizontal
    case Right =>
      if p.x + Step > cp.x + MaxHorizontal then Some(Walker(Left, w.vertical, Vec3(cp.x, p.y, p.z)))
      else Some(Walker(Right, w.vertical, Vec3(p.x + Step, p.y, p.z)))
    case Left =>
      if w.vertical == Up && p.y > cp.y + MaxVertical then Some(Walker(Right, Down, Vec3(cp.x, cp.y - Step, p.z)))
      else if w.vertical == Down && p.y < cp.y - MaxVertical then None
      else if p.x - Step < cp.x - MaxHorizontal then
        Some(Walker(Right, w.vertical, Vec3(cp.x, if w.vertical == Up then p.y + Step else p.y - Step, p.z)))
      else Some(Walker(Left, w.vertical, Vec3(p.x - Step, p.y, p.z)))
  }

  // ---------------------------------------------------------------------------------------------
  // The same walk on the grid of step offsets around the closest point

  /** A walker whose probe is `cp + 0.03 * (i, j)`. */
  datatype GridWalker = GridWalker(horizontal: Horizontal, vertical: Vertical, i: int, j: int)

  datatype Offset = Offset(dx: int, dy: int)

  /** The probe at offset (i, j) of `cp`; the depth stays that of `cp`. */
  function ProbeAt(cp: Vec3, i: int, j: int): Vec3
  {
    Vec3(cp.x + Step * i as real, cp.y + Step * j as real, cp.z)
  }

  function Lift(cp: Vec3, g: GridWalker): Walker
  {
    Walker(g.horizontal, g.vertical, ProbeAt(cp, g.i, g.j))
  }

  const Start: GridWalker := GridWalker(Right, Up, 0, 0)

  /** The states the walk reaches: sweeping right at offsets 0 .. 16, left at -16 .. 0, in the
      rows 0 .. 67 going up and -67 .. -1 going down; at the turning rows 67 and -67 a left
      sweep is only ever begun. */
  predicate OnWalk(g: GridWalker)
  {
    && (g.horizontal == Right ==> 0 <= g.i <= 16)
    && (g.horizontal == Left ==> -16 <= g.i <= 0)
    && (g.vertical == Up ==> 0 <= g.j <= 67)
    && (g.vertical == Down ==> -67 <= g.j <= -1)
    && (g.horizontal == Left && (g.j == 67 || g.j == -67) ==> g.i == 0)
  }

  /** How far the walk has come: rows in visiting order (up 0 .. 67, then down -1 .. -67), and
      within a row the right sweep before the left one. */
  function Progress(g: GridWalker): int
  {
    var row := if g.vertical == Up then g.j else 67 - g.j;
    var position := if g.horizontal == Right then g.i else 17 - g.i;
    row * 34 + position
  }

  function Rank(g: GridWalker): nat
    requires OnWalk(g)
  {
    4600 - Progress(g)
  }

  /** The if-chain on offsets. The walk stays on its states, and every step takes it forward. */
  function GridAdvance(g: GridWalker): (r: Option<GridWalker>)
    ensures OnWalk(g) && r.Some? ==> OnWalk(r.value) && Rank(r.value) < Rank(g)
  {
    match g.horizontal
    case Right =>
      if g.i + 1 >= 17 then Some(GridWalker(Left, g.vertical, 0, g.j))
      else Some(GridWalker(Right, g.vertical, g.i + 1, g.j))
    case Left =>
      if g.vertical == Up && g.j >= 67 then Some(GridWalker(Right, Down, 0, -1))
      else if g.vertical == Down && g.j <= -67 then None
      else if g.i - 1 <= -17 then Some(GridWalker(Right, g.vertical, 0, if g.vertical == Up then g.j + 1 else g.j - 1))
      else Some(GridWalker(Left, g.vertical, g.i - 1, g.j))
  }

  lemma Threshold(k: int)
    ensures Step * k as real > MaxHorizontal <==> k >= 17
    ensures Step * k as real < -MaxHorizontal <==> k <= -17
    ensures Step * k as real > MaxVertical <==> k >= 67
    ensures Step * k as real < -MaxVertical <==> k <= -67
  {
  }

  /** On probes of the grid, the source's if-chain is the walk on offsets. */
  lemma AdvanceOnGrid(cp: Vec3, g: GridWalker)
    ensures Advance(cp, Lift(cp, g)) ==
      match GridAdvance(g)
      case None => None
      case Some(h) => Some(Lift(cp, h))
  {
    Threshold(g.i + 1);
    Threshold(g.i - 1);
    Threshold(g.j);
    assert ProbeAt(cp, 0, g.j + 1).y == ProbeAt(cp, g.i, g.j).y + Step;
    assert ProbeAt(cp, 0, g.j - 1).y == ProbeAt(cp, g.i, g.j).y - Step;
  }

  /** The offsets the walk probes from `g` on, in order: the reference definition of the walk,
      unfolding the if-chain until it stops. */
  function Walk(g: GridWalker): seq<Offset>
    requires OnWalk(g)
    decreases Rank(g)
  {
    match GridAdvance(g)
    case None => []
    case Some(h) => [Offset(h.i, h.j)] + Walk(h)
  }

  // ---------------------------------------------------------------------------------------------
  // The walk in closed form; each piece is followed by the offsets `rest` probed after it

  /** The offsets (i + 1, j), .., (16, j) of a right sweep on from offset i. */
  function RightRun(i: int, j: int, rest: seq<Offset>): seq<Offset>
    decreases 16 - i
  {
    if i >= 16 then rest else [Offset(i + 1, j)] + RightRun(i + 1, j, rest)
  }

  /** The offsets (i - 1, j), .., (-16, j) of a left sweep on from offset i. */
  function LeftRun(i: int, j: int, rest: seq<Offset>): seq<Offset>
    decreases i + 16
  {
    if i <= -16 then rest else [Offset(i - 1, j)] + LeftRun(i - 1, j, rest)
  }

  /** One full row j: the right sweep, back to the centre, the left sweep, and the move to the
      centre of row `next`. */
  function Row(j: int, next: int, rest: seq<Offset>): seq<Offset>
  {
    RightRun(0, j, [Offset(0, j)] + LeftRun(0, j, [Offset(0, next)] + rest))
  }

  /** The rows j .. 66 on the way up. */
  function UpRows(j: int, rest: seq<Offset>): seq<Offset>
    decreases 67 - j
  {
    if j >= 67 then rest else Row(j, j + 1, UpRows(j + 1, rest))
  }

  /** The rows j .. -66 on the way down. */
  function DownRows(j: int, rest: seq<Offset>): seq<Offset>
    decreases j + 67
  {
    if j <= -67 then rest else Row(j, j - 1, DownRows(j - 1, rest))
  }

  /** Every offset the walk probes, in order: the full rows 0 .. 66; in row 67 the right sweep,
      the centre, and the turn to row -1; the full rows -1 .. -66; in row -67 the right sweep
      and the centre. */
  function WalkOffsets(): seq<Offset>
  {
    UpRows(0, RightRun(0, 67, [Offset(0, 67)] + ([Offset(0, -1)] + DownRows(-1, RightRun(0, -67, [Offset(0, -67)])))))
  }

  lemma {:induction false} RightSweepWalk(v: Vertical, i: int, j: int)
    requires OnWalk(GridWalker(Right, v, i, j))
    ensures OnWalk(GridWalker(Left, v, 0, j))
    ensures Walk(GridWalker(Right, v, i, j)) == RightRun(i, j, [Offset(0, j)] + Walk(GridWalker(Left, v, 0, j)))
    decreases 16 - i
  {
    if i < 16 {
      RightSweepWalk(v, i + 1, j);
    }
  }

  /** A left sweep in a row where the walk does not turn round ends at the centre of the next
      row. */
  lemma {:induction false} LeftSweepWalk(v: Vertical, i: int, j: int, next: int)
    requires OnWalk(GridWalker(Left, v, i, j))
    requires if v == Up then j < 67 && next == j + 1 else j > -67 && next == j - 1
    ensures OnWalk(GridWalker(Right, v, 0, next))
    ensures Walk(GridWalker(Left, v, i, j)) == LeftRun(i, j, [Offset(0, next)] + Walk(GridWalker(Right, v, 0, next)))
    decreases i + 16
  {
    if i > -16 {
      LeftSweepWalk(v, i - 1, j, next);
    }
  }

  lemma RowWalk(v: Vertical, j: int, next: int)
    requires OnWalk(GridWalker(Right, v, 0, j))
    requires if v == Up then j < 67 && next == j + 1 else j > -67 && next == j - 1
    ensures OnWalk(GridWalker(Right, v, 0, next))
    ensures Walk(GridWalker(Right, v, 0, j)) == Row(j, next, Walk(GridWalker(Right, v, 0, next)))
  {
    RightSweepWalk(v, 0, j);
    LeftSweepWalk(v, 0, j, next);
  }

  lemma {:induction false} UpRowsWalk(j: int)
    requires 0 <= j <= 67
    ensures Walk(GridWalker(Right, Up, 0, j)) == UpRows(j, Walk(GridWalker(Right, Up, 0, 67)))
    decreases 67 - j
  {
    if j < 67 {
      RowWalk(Up, j, j + 1);
      UpRowsWalk(j + 1);
    }
  }

  lemma {:induction false} DownRowsWalk(j: int, bottom: int)
    requires bottom == -67 <= j <= -1
    ensures Walk(GridWalker(Right, Down, 0, j)) == DownRows(j, Walk(GridWalker(Right, Down, 0, bottom)))
    decreases j + 67
  {
    if j > -67 {
      var floor := Walk(GridWalker(Right, Down, 0, bottom));
      assert DownRows(j, floor) == Row(j, j - 1, DownRows(j - 1, floor));
      RowWalk(Down, j, j - 1);
      DownRowsWalk(j - 1, bottom);
    }
  }

  /** Row 67: one right sweep, then the left step that turns the walk down to row -1. */
  lemma TopRowWalk()
    ensures Walk(GridWalker(Right, Up, 0, 67)) ==
      RightRun(0, 67, [Offset(0, 67)] + ([Offset(0, -1)] + Walk(GridWalker(Right, Down, 0, -1))))
  {
    RightSweepWalk(Up, 0, 67);
  }

  /** Row -67: one right sweep, then the left step that stops the walk. */
  lemma BottomRowWalk()
    ensures Walk(GridWalker(Right, Down, 0, -67)) == RightRun(0, -67, [Offset(0, -67)])
  {
    RightSweepWalk(Down, 0, -67);
    assert GridAdvance(GridWalker(Left, Down, 0, -67)) == None;
    assert Walk(GridWalker(Left, Down, 0, -67)) == [];
    assert [Offset(0, -67)] + [] == [Offset(0, -67)];
  }

  /** The walk from the start is the closed form. */
  lemma WalkClosedForm()
    ensures Walk(Start) == WalkOffsets()
  {
    UpRowsWalk(0);
    TopRowWalk();
    DownRowsWalk(-1, -67);
    BottomRowWalk();
  }

  lemma {:induction false} RightRunLength(i: int, j: int, rest: seq<Offset>)
    requires i <= 16
    ensures |RightRun(i, j, rest)| == 16 - i + |rest|
    decreases 16 - i
  {
    if i < 16 {
      RightRunLength(i + 1, j, rest);
    }
  }

  lemma {:induction false} LeftRunLength(i: int, j: int, rest: seq<Offset>)
    requires -16 <= i
    ensures |LeftRun(i, j, rest)| == i + 16 + |rest|
    decreases i + 16
  {
    if i > -16 {
      LeftRunLength(i - 1, j, rest);
    }
  }

  lemma RowLength(j: int, next: int, rest: seq<Offset>)
    ensures |Row(j, next, rest)| == 34 + |rest|
  {
    LeftRunLength(0, j, [Offset(0, next)] + rest);
    RightRunLength(0, j, [Offset(0, j)] + LeftRun(0, j, [Offset(0, next)] + rest));
  }

  lemma {:induction false} UpRowsLength(j: int, rest: seq<Offset>)
    requires j <= 67
    ensures |UpRows(j, rest)| == 34 * (67 - j) + |rest|
    decreases 67 - j
  {
    if j < 67 {
      UpRowsLength(j + 1, rest);
      RowLength(j, j + 1, UpRows(j + 1, rest));
    }
  }

  lemma {:induction false} DownRowsLength(j: int, rest: seq<Offset>)
    requires -67 <= j
    ensures |DownRows(j, rest)| == 34 * (j + 67) + |rest|
    decreases j + 67
  {
    if j > -67 {
      DownRowsLength(j - 1, rest);
      RowLength(j, j - 1, DownRows(j - 1, rest));
    }
  }

  /** The walk casts 4557 rays: 67 full rows up, 18 probes in row 67, 66 full rows down and
      17 probes in row -67. */
  lemma WalkLength()
    ensures |Walk(Start)| == 4557
  {
    var bottom := RightRun(0, -67, [Offset(0, -67)]);
    RightRunLength(0, -67, [Offset(0, -67)]);
    var down := DownRows(-1, bottom);
    DownRowsLength(-1, bottom);
    var top := RightRun(0, 67, [Offset(0, 67)] + ([Offset(0, -1)] + down));
    RightRunLength(0, 67, [Offset(0, 67)] + ([Offset(0, -1)] + down));
    UpRowsLength(0, top);
    WalkClosedForm();
  }

  /** Offsets at most 16 steps to either side and 67 steps up or down. */
  predicate InBox(o: Offset)
  {
    -16 <= o.dx <= 16 && -67 <= o.dy <= 67
  }

  lemma {:induction false} WalkStaysInBox(g: GridWalker)
    requires OnWalk(g)
    ensures forall k :: 0 <= k < |Walk(g)| ==> InBox(Walk(g)[k])
    decreases Rank(g)
  {
    match GridAdvance(g)
    case None =>
    case Some(h) =>
      WalkStaysInBox(h);
      assert Walk(g) == [Offset(h.i, h.j)] + Walk(h);
  }

  /** Every probe lies at the depth of the closest point, within 0.48 of it across and
      within 2.01 of it up and down. */
  lemma ProbesNearClosest(cp: Vec3, k: int)
    requires 0 <= k < |Walk(Start)|
    ensures var p := ProbeAt(cp, Walk(Start)[k].dx, Walk(Start)[k].dy);
      && cp.x - 0.48 <= p.x <= cp.x + 0.48
      && cp.y - 2.01 <= p.y <= cp.y + 2.01
      && p.z == cp.z
  {
    WalkStaysInBox(Start);
    assert InBox(Walk(Start)[k]);
  }

  // ---------------------------------------------------------------------------------------------
  // What the walk records

  /** The hit's depth is within 0.2 of the closest point's. */
  predicate InDepthBand(cp: Vec3, hit: Hit): (inBand: bool)
    ensures inBand <==> -DepthBand < hit.position.z - cp.z < DepthBand
  {
    cp.z < hit.position.z + DepthBand && cp.z > hit.position.z - DepthBand
  }

  /** The height the probe at offset `o` contributes: that of the ray's first hit, when it is
      in the depth band. */
  function Recorded(cast: (Vec3, Vec3) -> Option<Hit>, origin: Vec3, cp: Vec3, o: Offset): (ys: seq<real>)
    ensures |ys| <= 1
    ensures var hit := cast(origin, ProbeAt(cp, o.dx, o.dy));
      && (ys != [] <==> hit.Some? && InDepthBand(cp, hit.value))
      && (ys != [] ==> ys[0] == hit.value.position.y)
  {
    match cast(origin, ProbeAt(cp, o.dx, o.dy))
    case None => []
    case Some(hit) => if InDepthBand(cp, hit) then [hit.position.y] else []
  }

  /** The heights recorded along the probes `offsets`, in order. */
  function Accepted(cast: (Vec3, Vec3) -> Option<Hit>, origin: Vec3, cp: Vec3, offsets: seq<Offset>): (ys: seq<real>)
    ensures |ys| <= |offsets|
    ensures (forall i | 0 <= i < |offsets| :: Recorded(cast, origin, cp, offsets[i]) == []) ==> ys == []
    decreases |offsets|
  {
    if |offsets| == 0 then []
    else
      assert forall i | 0 <= i < |offsets| - 1 :: offsets[..|offsets| - 1][i] == offsets[i];
      Accepted(cast, origin, cp, offsets[..|offsets| - 1]) + Recorded(cast, origin, cp, offsets[|offsets| - 1])
  }

  /** `maxVerticalPosition` after the heights `ys`: the largest of them, or -9999 when none is
      larger. */
  function Highest(ys: seq<real>): (m: real)
    ensures m >= -Far
    ensures forall k :: 0 <= k < |ys| ==> ys[k] <= m
    ensures m == -Far || exists k :: 0 <= k < |ys| && ys[k] == m
    decreases |ys|
  {
    if |ys| == 0 then -Far
    else
      var m := Highest(ys[..|ys| - 1]);
      assert forall k :: 0 <= k < |ys| - 1 ==> ys[..|ys| - 1][k] == ys[k];
      if m < ys[|ys| - 1] then ys[|ys| - 1] else m
  }

  /** `minVerticalPosition` after the heights `ys`: the smallest of them, or 9999 when none is
      smaller. */
  function Lowest(ys: seq<real>): (m: real)
    ensures m <= Far
    ensures forall k :: 0 <= k < |ys| ==> m <= ys[k]
    ensures m == Far || exists k :: 0 <= k < |ys| && ys[k] == m
    decreases |ys|
  {
    if |ys| == 0 then Far
    else
      var m := Lowest(ys[..|ys| - 1]);
      assert forall k :: 0 <= k < |ys| - 1 ==> ys[..|ys| - 1][k] == ys[k];
      if m > ys[|ys| - 1] then ys[|ys| - 1] else m
  }

  /** The returned height: the spread of the recorded heights plus one step. */
  function Extent(ys: seq<real>): (extent: real)
    ensures |ys| == 0 ==> extent == -19997.97
    ensures forall i, j | 0 <= i < |ys| && 0 <= j < |ys| :: ys[i] - ys[j] + Step <= extent
  {
    Highest(ys) - Lowest(ys) + Step
  }

  /** When the recorded heights lie strictly between -9999 and 9999 and there is at least one,
      the result is the highest minus the lowest of them plus one step, so at least one step. */
  lemma ExtentSpansAccepted(ys: seq<real>)
    requires |ys| > 0
    requires forall k :: 0 <= k < |ys| ==> -Far < ys[k] < Far
    ensures exists top, bottom :: 0 <= top < |ys| && 0 <= bottom < |ys| && Extent(ys) == ys[top] - ys[bottom] + Step
    ensures Extent(ys) >= Step
  {
    assert ys[0] <= Highest(ys) && Lowest(ys) <= ys[0];
  }

  lemma AcceptedSnoc(cast: (Vec3, Vec3) -> Option<Hit>, origin: Vec3, cp: Vec3, offsets: seq<Offset>, o: Offset)
    ensures Recorded(cast, origin, cp, o) == [] ==>
      Accepted(cast, origin, cp, offsets + [o]) == Accepted(cast, origin, cp, offsets)
    ensures Recorded(cast, origin, cp, o) != [] ==>
      Accepted(cast, origin, cp, offsets + [o]) == Accepted(cast, origin, cp, offsets) + Recorded(cast, origin, cp, o)
  {
    assert (offsets + [o])[..|offsets|] == offsets;
    assert Accepted(cast, origin, cp, offsets) + [] == Accepted(cast, origin, cp, offsets);
  }

  lemma BoundsSnoc(ys: seq<real>, y: real)
    ensures Highest(ys + [y]) == if Highest(ys) < y then y else Highest(ys)
    ensures Lowest(ys + [y]) == if Lowest(ys) > y then y else Lowest(ys)
  {
    assert (ys + [y])[..|ys|] == ys;
  }

  /** One step of the walk from `g`, seen from the probes already cast. */
  lemma WalkStep(probed: seq<Offset>, g: GridWalker)
    requires OnWalk(g)
    ensures GridAdvance(g).None? ==> Walk(g) == []
    ensures GridAdvance(g).Some? ==>
      var h := GridAdvance(g).value;
      OnWalk(h) && probed + [Offset(h.i, h.j)] + Walk(h) == probed + Walk(g)
  {
    if GridAdvance(g).Some? {
      var h := GridAdvance(g).value;
      assert Walk(g) == [Offset(h.i, h.j)] + Walk(h);
    }
  }

  /** Phase 2: walks the probes around `cp`, casting each from `origin`, and returns the
      spread of the recorded heights plus one step. */
  method MeasureExtent(cast: (Vec3, Vec3) -> Option<Hit>, origin: Vec3, cp: Vec3) returns (extent: real)
    ensures extent == Extent(Accepted(cast, origin, cp, Walk(Start)))
  {
    var walker := Walker(Right, Up, cp);
    var maxVertical := -Far;
    var minVertical := Far;
    ghost var g := Start;
    ghost var probed: seq<Offset> := [];
    ghost var recorded: seq<real> := [];
    ghost var walk := Walk(g);
    while true
      invariant OnWalk(g) && walker == Lift(cp, g)
      invariant probed + Walk(g) == walk
      invariant recorded == Accepted(cast, origin, cp, probed)
      invariant maxVertical == Highest(recorded) && minVertical == Lowest(recorded)
      decreases Rank(g)
    {
      AdvanceOnGrid(cp, g);
      WalkStep(probed, g);
      var next := Advance(cp, walker);
      if next.None? {
        break;
      }
      walker := next.value;
      ghost var o := Offset(GridAdvance(g).value.i, GridAdvance(g).value.j);
      AcceptedSnoc(cast, origin, cp, probed, o);
      probed := probed + [o];
      g := GridAdvance(g).value;
      var hit := cast(origin, walker.probe);
      if hit.None? {
        continue;
      }
      var y := hit.value.position.y;
      if InDepthBand(cp, hit.value) {
        BoundsSnoc(recorded, y);
        recorded := recorded + [y];
        if maxVertical < y {
          maxVertical := y;
        }
        if minVertical > y {
          minVertical := y;
        }
      }
    }
    assert probed == walk;
    extent := maxVertical - minVertical + Step;
  }

  // ---------------------------------------------------------------------------------------------
  // Both phases

  /** `detectHeight()`: no height when the scan finds no point; otherwise the extent the walk
      around the point measures, casting from the scan's last ray. */
  method DetectHeight(view: Bounds, rayThrough: ScreenPoint -> Ray, cast: (Vec3, Vec3) -> Option<Hit>)
    returns (height: Option<real>)
    ensures var closest := ClosestAmong(view, rayThrough, cast, SweepCount(view)).point;
      && (height.None? <==> closest.None?)
      && (closest.Some? ==>
            height == Some(Extent(Accepted(cast, LastRay(view, rayThrough).origin, closest.value, Walk(Start)))))
  {
    var closest, ray := FindClosest(view, rayThrough, cast);
    if closest.None? {
      return None;
    }
    var extent := MeasureExtent(cast, ray.origin, closest.value);
    return Some(extent);
  }
}
