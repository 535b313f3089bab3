/** The dot-path animation over the reals: a random path that keeps to the screen, and dots that
    travel along it. */
module DotPath {

  const NUMBER_OF_JUMPS: nat := 90
  const DOT_COUNT: nat := 50
  const DIAGONAL := 0.707106781

  datatype Point = Point(x: real, y: real)

  // One draw of the random generator for a jump: how far, in which of eight directions, and how
  // large the dot is at its end.
  datatype Draw = Draw(length: real, direction: nat, size: real)

  predicate ValidDraw(d: Draw) {
    10.0 <= d.length < 40.0 && d.direction < 8 && 0.5 <= d.size < 2.5
  }

  // ----- one jump

  function StepX(d: Draw): real {
    match d.direction
    case 0 => d.length
    case 1 => -d.length
    case 2 => 0.0
    case 3 => 0.0
    case 4 => d.length * DIAGONAL
    case 5 => -(d.length * DIAGONAL)
    case 6 => d.length * DIAGONAL
    case 7 => -(d.length * DIAGONAL)
    case _ => 0.0
  }

  function StepY(d: Draw): real {
    match d.direction
    case 0 => 0.0
    case 1 => 0.0
    case 2 => d.length
    case 3 => -d.length
    case 4 => d.length * DIAGONAL
    case 5 => d.length * DIAGONAL
    case 6 => -(d.length * DIAGONAL)
    case 7 => -(d.length * DIAGONAL)
    case _ => 0.0
  }

  /** A coordinate that has left the margins is sent back by twice the jump. */
  function Bounced(x: real, length: real, lo: real, hi: real): real {
    if x > hi then x - 2.0 * length else if x < lo then x + 2.0 * length else x
  }

  // The margins of one axis: coordinates run from `lo` to `hi`.
  datatype Span = Span(lo: real, hi: real) {
    function Length(): real { hi - lo }
  }

  datatype Axis = X | Y

  // The margins of a screen.
  datatype Bounds = Bounds(x: Span, y: Span) {
    function On(a: Axis): Span { if a.X? then x else y }
  }

  function At(p: Point, a: Axis): real { if a.X? then p.x else p.y }

  function StepOn(d: Draw, a: Axis): real { if a.X? then StepX(d) else StepY(d) }

  function Jumped(p: Point, d: Draw, b: Bounds): Point {
    Point(Bounced(p.x + StepX(d), d.length, b.x.lo, b.x.hi),
          Bounced(p.y + StepY(d), d.length, b.y.lo, b.y.hi))
  }

  predicate In(x: real, s: Span) { s.lo <= x <= s.hi }

  predicate Inside(p: Point, b: Bounds) {
    In(p.x, b.x) && In(p.y, b.y)
  }

  /** Twice the longest jump: an axis at least as long has room for every bounce. */
  const ROOM := 80.0

  /** As far as a path can get: to the margins of an axis that is long enough, and not farther than
      two longest jumps from the other margin of one that is not. */
  function Reach(s: Span): Span {
    Span(if s.hi - ROOM < s.lo then s.hi - ROOM else s.lo, if s.lo + ROOM > s.hi then s.lo + ROOM else s.hi)
  }

  lemma StepsShort(d: Draw, a: Axis)
    requires ValidDraw(d)
    ensures -d.length <= StepOn(d, a) <= d.length
  {
  }

  lemma BounceStays(x: real, step: real, length: real, s: Span)
    requires s.lo <= s.hi && In(x, Reach(s)) && 10.0 <= length < 40.0 && -length <= step <= length
    ensures In(Bounced(x + step, length, s.lo, s.hi), Reach(s))
  {
  }

  /** Every jump from within the margins of an axis stays within them. */
  ghost predicate JumpsStay(b: Bounds, a: Axis) {
    forall p, d | In(At(p, a), b.On(a)) && ValidDraw(d) :: In(At(Jumped(p, d, b), a), b.On(a))
  }

  /** Straight across a short axis, from its middle, a jump leaves the margins. */
  lemma ShortAxisLeaves(s: Span) returns (x: real, length: real)
    requires 0.0 <= s.Length() < ROOM
    ensures In(x, s) && 10.0 <= length < 40.0
    ensures Bounced(x + length, length, s.lo, s.hi) < s.lo
  {
    x, length := (s.lo + s.hi) / 2.0, (s.Length() / 2.0 + 40.0) / 2.0;
  }

  /** On an axis the path keeps to the margins for all draws exactly when the axis, less its
      margins, is at least as long as two of the longest jumps, whatever the other axis is. */
  lemma JumpsStayIff(b: Bounds, a: Axis)
    requires b.On(a).lo <= b.On(a).hi
    ensures JumpsStay(b, a) <==> b.On(a).Length() >= ROOM
  {
    var s := b.On(a);
    if s.Length() < ROOM {
      var x, length := ShortAxisLeaves(s);
      var p, d := Point(x, x), Draw(length, if a.X? then 0 else 2, 1.0);
      assert In(At(p, a), s) && ValidDraw(d) && !In(At(Jumped(p, d, b), a), s);
    } else {
      forall p, d | In(At(p, a), s) && ValidDraw(d) ensures In(At(Jumped(p, d, b), a), s) {
        JumpReaches(p, d, b, a);
      }
    }
  }

  lemma JumpReaches(p: Point, d: Draw, b: Bounds, a: Axis)
    requires b.On(a).lo <= b.On(a).hi && In(At(p, a), Reach(b.On(a))) && ValidDraw(d)
    ensures In(At(Jumped(p, d, b), a), Reach(b.On(a)))
  {
    StepsShort(d, a);
    BounceStays(At(p, a), StepOn(d, a), d.length, b.On(a));
  }

  // ----- easing

  function Pow(x: real, n: nat): real {
    if n == 0 then 1.0 else x * Pow(x, n - 1)
  }

  /** `EaseWithGamma` for a whole exponent. */
  function Ease(p: real, gamma: nat): real {
    if p < 0.5 then 0.5 * Pow(2.0 * p, gamma) else 1.0 - 0.5 * Pow(2.0 * (1.0 - p), gamma)
  }

  lemma {:induction false} PowGrows(x: real, y: real, n: nat)
    requires 0.0 <= x <= y
    ensures 0.0 <= Pow(x, n) <= Pow(y, n)
  {
    if n > 0 {
      PowGrows(x, y, n - 1);
      MulGrows(x, y, Pow(x, n - 1), Pow(y, n - 1));
    }
  }

  lemma MulGrows(x: real, y: real, a: real, b: real)
    requires 0.0 <= x <= y && 0.0 <= a <= b
    ensures 0.0 <= x * a <= y * b
  {
    assert x * a <= x * b;
    assert x * b <= y * b;
  }

  lemma {:induction false} PowOne(n: nat)
    ensures Pow(1.0, n) == 1.0
  {
    if n > 0 {
      PowOne(n - 1);
    }
  }

  /** Easing maps the unit interval onto itself end to end, never falls, and is symmetric about the
      middle. */
  lemma EaseShape(p: real, q: real, gamma: nat)
    requires 0.0 <= p <= q <= 1.0 && gamma > 0
    ensures 0.0 <= Ease(p, gamma) <= Ease(q, gamma) <= 1.0
    ensures Ease(0.0, gamma) == 0.0 && Ease(1.0, gamma) == 1.0
    ensures Ease(1.0 - p, gamma) == 1.0 - Ease(p, gamma)
  {
    PowOne(gamma);
    HalfEase(p, gamma);
    HalfEase(q, gamma);
    if q < 0.5 {
      PowGrows(2.0 * p, 2.0 * q, gamma);
    } else if p >= 0.5 {
      PowGrows(2.0 * (1.0 - q), 2.0 * (1.0 - p), gamma);
    }
  }

  lemma HalfEase(p: real, gamma: nat)
    requires 0.0 <= p <= 1.0
    ensures p < 0.5 ==> 0.0 <= Ease(p, gamma) <= 0.5
    ensures p >= 0.5 ==> 0.5 <= Ease(p, gamma) <= 1.0
  {
    PowOne(gamma);
    if p < 0.5 {
      PowGrows(2.0 * p, 1.0, gamma);
    } else {
      PowGrows(2.0 * (1.0 - p), 1.0, gamma);
    }
  }

  // ----- the animation

  function Part(d: real, t: real): real { d * t }

  function Mix(a: real, b: real, t: real): real {
    a + Part(b - a, t)
  }

  lemma PartWithin(d: real, t: real)
    requires 0.0 <= t <= 1.0
    ensures 0.0 <= d ==> 0.0 <= Part(d, t) <= d
    ensures d <= 0.0 ==> d <= Part(d, t) <= 0.0
  {
    if d <= 0.0 {
      assert -d * t == -(d * t);
    }
  }

  lemma MixBetween(a: real, b: real, t: real, lo: real, hi: real)
    requires lo <= a <= hi && lo <= b <= hi && 0.0 <= t <= 1.0
    ensures lo <= Mix(a, b, t) <= hi
  {
    hide Part;
    PartWithin(b - a, t);
  }

  /** The points after a jump for each draw. */
  function Walked(p: Point, ds: seq<Draw>, b: Bounds): seq<Point>
    decreases |ds|
  {
    if ds == [] then []
    else
      var q := Jumped(p, ds[0], b);
      [q] + Walked(q, ds[1..], b)
  }

  /** Along an axis, the path stays within reach. */
  lemma {:induction false} WalkedWithin(p: Point, ds: seq<Draw>, b: Bounds, a: Axis)
    requires b.On(a).lo <= b.On(a).hi && In(At(p, a), Reach(b.On(a)))
    requires forall k | 0 <= k < |ds| :: ValidDraw(ds[k])
    ensures |Walked(p, ds, b)| == |ds|
    ensures forall k | 0 <= k < |ds| :: In(At(Walked(p, ds, b)[k], a), Reach(b.On(a)))
    decreases |ds|
  {
    hide Jumped, In, Reach, ValidDraw;
    if ds != [] {
      JumpReaches(p, ds[0], b, a);
      WalkedWithin(Jumped(p, ds[0], b), ds[1..], b, a);
    }
  }

  lemma {:induction false} WalkedLength(p: Point, ds: seq<Draw>, b: Bounds)
    ensures |Walked(p, ds, b)| == |ds|
    decreases |ds|
  {
    if ds != [] {
      WalkedLength(Jumped(p, ds[0], b), ds[1..], b);
    }
  }

  /** The sizes along the path: nothing at its last point. */
  function SizeAt(ds: seq<Draw>, k: nat): real
    requires k < |ds|
  {
    if k == NUMBER_OF_JUMPS - 1 then 0.0 else ds[k].size
  }

  // A dot to be drawn.
  datatype Dot = Dot(at: Point, size: real)

  /** How far along the path, counted in jumps, the fraction `p` of the way is. */
  function Along(p: real): real {
    p * NUMBER_OF_JUMPS as real * 0.9999
  }

  /** The two points looked up are among those generated. */
  lemma LookupInRange(p: real)
    requires 0.0 <= p < 1.0
    ensures 0 <= Along(p).Floor && Along(p).Floor + 1 <= NUMBER_OF_JUMPS
    ensures 0.0 <= Along(p) - Along(p).Floor as real < 1.0
  {
  }

  /** The dot that has come the fraction `p` of the way. */
  function DotAt(positions: seq<Point>, sizes: seq<real>, p: real): Dot
    requires |positions| == |sizes| == NUMBER_OF_JUMPS + 1 && 0.0 <= p < 1.0
  {
    LookupInRange(p);
    var i := Along(p).Floor;
    var t := Ease(Along(p) - i as real, 4);
    Dot(Point(Mix(positions[i].x, positions[i + 1].x, t), Mix(positions[i].y, positions[i + 1].y, t)),
        Mix(sizes[i], sizes[i + 1], t))
  }

  /** Along an axis, a dot is where the path is. */
  lemma DotStays(positions: seq<Point>, sizes: seq<real>, p: real, a: Axis, s: Span)
    requires |positions| == |sizes| == NUMBER_OF_JUMPS + 1 && 0.0 <= p < 1.0
    requires forall k | 0 <= k < |positions| :: In(At(positions[k], a), s)
    ensures In(At(DotAt(positions, sizes, p).at, a), s)
  {
    LookupInRange(p);
    var i := Along(p).Floor;
    EaseShape(Along(p) - i as real, 1.0, 4);
    MixBetween(At(positions[i], a), At(positions[i + 1], a), Ease(Along(p) - i as real, 4), s.lo, s.hi);
  }

  lemma DotSize(positions: seq<Point>, sizes: seq<real>, p: real, largest: real)
    requires |positions| == |sizes| == NUMBER_OF_JUMPS + 1 && 0.0 <= p < 1.0
    requires forall k | 0 <= k < |sizes| :: 0.0 <= sizes[k] <= largest
    ensures 0.0 <= DotAt(positions, sizes, p).size <= largest
  {
    LookupInRange(p);
    var i := Along(p).Floor;
    EaseShape(Along(p) - i as real, 1.0, 4);
    MixBetween(sizes[i], sizes[i + 1], Ease(Along(p) - i as real, 4), 0.0, largest);
  }

  /** The fraction of the way that dot `i` of a frame has come. */
  function Place(i: nat, time: real): real {
    (i as real + time) / DOT_COUNT as real
  }

  predicate Shown(dot: Dot, width: nat, height: nat) {
    dot.at.x < width as real && dot.at.y < height as real && dot.size > 0.1
  }

  /** The first `n` dots of a frame, as far as they are drawn. */
  function Frame(positions: seq<Point>, sizes: seq<real>, time: real, width: nat, height: nat, n: nat): seq<Dot>
    requires |positions| == |sizes| == NUMBER_OF_JUMPS + 1 && 0.0 <= time < 1.0 && n <= DOT_COUNT
  {
    if n == 0 then []
    else
      var dot := DotAt(positions, sizes, Place(n - 1, time));
      Frame(positions, sizes, time, width, height, n - 1) + if Shown(dot, width, height) then [dot] else []
  }

  lemma {:induction false} FrameStays(positions: seq<Point>, sizes: seq<real>, time: real,
      width: nat, height: nat, n: nat, a: Axis, s: Span, largest: real)
    requires |positions| == |sizes| == NUMBER_OF_JUMPS + 1 && 0.0 <= time < 1.0 && n <= DOT_COUNT
    requires forall k | 0 <= k < |positions| :: In(At(positions[k], a), s)
    requires forall k | 0 <= k < |sizes| :: 0.0 <= sizes[k] <= largest
    ensures var dots := Frame(positions, sizes, time, width, height, n);
            |dots| <= n
            && forall k | 0 <= k < |dots| :: In(At(dots[k].at, a), s) && 0.1 < dots[k].size <= largest
  {
    hide DotAt, In, At;
    if n > 0 {
      DotStays(positions, sizes, Place(n - 1, time), a, s);
      DotSize(positions, sizes, Place(n - 1, time), largest);
      FrameStays(positions, sizes, time, width, height, n - 1, a, s, largest);
    }
  }

  /** The time after a frame, kept within one turn. */
  function Later(time: real): real {
    if time + 0.02 >= 1.0 then time + 0.02 - 1.0 else time + 0.02
  }

  function Min(a: nat, b: nat): nat { if a < b then a else b }

  function Side(width: nat, height: nat, a: Axis): nat { if a.X? then width else height }

  function BoundsOf(width: nat, height: nat): Bounds {
    var margin := Min(width, height) as real * 0.1;
    Bounds(Span(margin, width as real - margin), Span(margin, height as real - margin))
  }

  /** Whether there is room for every bounce on an axis, from the side lengths of the screen. */
  predicate Roomy(width: nat, height: nat, a: Axis) {
    10 * Side(width, height, a) >= 800 + 2 * Min(width, height)
  }

  lemma RoomIff(width: nat, height: nat, a: Axis)
    ensures var s := BoundsOf(width, height).On(a);
            && s.lo <= s.hi && (s.Length() >= ROOM <==> Roomy(width, height, a))
            && (Roomy(width, height, a) ==> Reach(s) == s)
    ensures Roomy(width, height, X) && Roomy(width, height, Y) <==> Min(width, height) >= 100
  {
  }

  /** A display of 128 by 32 pixels has room along its rows and none across them: there a dot may
      leave the screen, by no more than 51.2 pixels on either side. */
  lemma NarrowDisplay()
    ensures Roomy(128, 32, X) && !Roomy(128, 32, Y)
    ensures Reach(BoundsOf(128, 32).y) == Span(28.8 - 80.0, 3.2 + 80.0)
    ensures ValidDraw(Draw(39.0, 2, 1.0))
    ensures Jumped(Point(64.0, 16.0), Draw(39.0, 2, 1.0), BoundsOf(128, 32)).y == -23.0
  {
  }

  /** On every screen, along each axis, every point of the path and every dot of every frame stays
      within reach; on an axis with room for every bounce, whatever the other axis is, they stay
      within the margins. */
  lemma AnimationStays(width: nat, height: nat, start: Point, draws: seq<Draw>, sizes: seq<real>,
      time: real, a: Axis)
    requires Inside(start, BoundsOf(width, height))
    requires |draws| == NUMBER_OF_JUMPS && forall k | 0 <= k < |draws| :: ValidDraw(draws[k])
    requires |sizes| == NUMBER_OF_JUMPS + 1 && forall k | 0 <= k < |sizes| :: 0.0 <= sizes[k] <= 2.5
    requires 0.0 <= time < 1.0
    ensures var b := BoundsOf(width, height);
            var path, limits := [start] + Walked(start, draws, b), Reach(b.On(a));
            && |path| == NUMBER_OF_JUMPS + 1
            && (Roomy(width, height, a) ==> limits == b.On(a))
            && (forall k | 0 <= k < |path| :: In(At(path[k], a), limits))
            && var dots := Frame(path, sizes, time, width, height, DOT_COUNT);
               forall k | 0 <= k < |dots| :: In(At(dots[k].at, a), limits)
  {
    hide Frame, Walked, BoundsOf, Roomy;
    var b := BoundsOf(width, height);
    RoomIff(width, height, a);
    WalkedWithin(start, draws, b, a);
    FrameStays([start] + Walked(start, draws, b), sizes, time, width, height, DOT_COUNT, a, Reach(b.On(a)), 2.5);
  }

  // ----- the steps

  /** The eight directions: along the axes the whole length, and along the diagonals 0.707106781 of it
      on both axes, each way; they come in four opposite pairs. */
  lemma EightDirections(d: Draw, length: real)
    requires d.direction < 8 && d.length == length
    ensures var x, y, g := StepX(d), StepY(d), length * 0.707106781;
            && (d.direction < 2 ==> y == 0.0 && (x == length || x == -length))
            && (2 <= d.direction < 4 ==> x == 0.0 && (y == length || y == -length))
            && (d.direction >= 4 ==> (x == g || x == -g) && (y == g || y == -g))
  {
  }

  lemma DirectionsDiffer(d: Draw, e: Draw)
    requires d.direction < 8 && e.direction < 8 && d.length == e.length > 0.0
    requires d.direction != e.direction
    ensures (StepX(d), StepY(d)) != (StepX(e), StepY(e))
  {
    Magnified(d.length);
  }

  lemma Magnified(length: real)
    requires length > 0.0
    ensures 0.0 < length * DIAGONAL < length
  {
  }

  /** Every point of a path is one jump from the one before: a step in the direction drawn, and on an
      axis whose margin this has crossed two lengths back. */
  lemma {:induction false} PathSteps(start: Point, ds: seq<Draw>, b: Bounds, k: nat)
    requires k < |ds|
    ensures |Walked(start, ds, b)| == |ds|
    ensures var path := [start] + Walked(start, ds, b);
            var x, y := path[k].x + StepX(ds[k]), path[k].y + StepY(ds[k]);
            && path[k + 1].x == (if x > b.x.hi then x - 2.0 * ds[k].length
                                 else if x < b.x.lo then x + 2.0 * ds[k].length else x)
            && path[k + 1].y == (if y > b.y.hi then y - 2.0 * ds[k].length
                                 else if y < b.y.lo then y + 2.0 * ds[k].length else y)
    decreases |ds|
  {
    hide StepX, StepY;
    WalkedLength(start, ds, b);
    if k > 0 {
      var next := Jumped(start, ds[0], b);
      PathSteps(next, ds[1..], b, k - 1);
      assert ([start] + Walked(start, ds, b))[k] == ([next] + Walked(next, ds[1..], b))[k - 1];
      assert ([start] + Walked(start, ds, b))[k + 1] == ([next] + Walked(next, ds[1..], b))[k];
    }
  }

  // ----- easing, dots and frames

  /** Up to the middle easing goes by the power: on the fraction `c` of the way it is at the fraction
      `c` to the power `gamma`; in the middle it is in the middle. */
  lemma EasePower(c: real, p: real, gamma: nat)
    requires 0.0 <= c <= 1.0 && 0.0 <= p < 0.5
    ensures Ease(c * p, gamma) == Pow(c, gamma) * Ease(p, gamma)
    ensures Ease(0.5, gamma) == 0.5
  {
    Within(c, p);
    PowProduct(c, 2.0 * p, gamma);
    assert 2.0 * (c * p) == c * (2.0 * p);
    PowOne(gamma);
    Halved(Pow(c, gamma), Pow(2.0 * p, gamma));
  }

  lemma Within(c: real, p: real)
    requires 0.0 <= c <= 1.0 && 0.0 <= p < 0.5
    ensures 0.0 <= c * p < 0.5
  {
    MulGrows(c, 1.0, p, p);
  }

  lemma Halved(a: real, b: real)
    ensures 0.5 * (a * b) == a * (0.5 * b)
  {
  }

  lemma {:induction false} PowProduct(a: real, b: real, n: nat)
    ensures Pow(a * b, n) == Pow(a, n) * Pow(b, n)
  {
    if n > 0 {
      PowProduct(a, b, n - 1);
      Rearranged(a, b, Pow(a, n - 1), Pow(b, n - 1));
    }
  }

  lemma Rearranged(a: real, b: real, c: real, d: real)
    ensures (a * b) * (c * d) == (a * c) * (b * d)
  {
  }

  /** A dot that has come a whole number of jumps lies on the path, and has the size given there. */
  lemma DotOnPath(positions: seq<Point>, sizes: seq<real>, p: real, k: nat)
    requires |positions| == |sizes| == NUMBER_OF_JUMPS + 1 && 0.0 <= p < 1.0 && Along(p) == k as real
    ensures k < NUMBER_OF_JUMPS && DotAt(positions, sizes, p) == Dot(positions[k], sizes[k])
  {
    LookupInRange(p);
    assert Along(p).Floor == k;
    EaseShape(0.0, 1.0, 4);
  }

  /** A dot halfway between two points of the path lies in the middle between them. */
  lemma DotHalfway(positions: seq<Point>, sizes: seq<real>, p: real, k: nat)
    requires |positions| == |sizes| == NUMBER_OF_JUMPS + 1 && 0.0 <= p < 1.0 && Along(p) == k as real + 0.5
    ensures k < NUMBER_OF_JUMPS
    ensures var dot, a, b := DotAt(positions, sizes, p), positions[k], positions[k + 1];
            && dot.at == Point((a.x + b.x) / 2.0, (a.y + b.y) / 2.0)
            && dot.size == (sizes[k] + sizes[k + 1]) / 2.0
  {
    LookupInRange(p);
    assert Along(p).Floor == k;
    EasePower(1.0, 0.0, 4);
  }

  /** The way is 90 jumps long but for its ten-thousandth part, so that the last jump is travelled. */
  lemma AlongAll(p: real)
    requires 0.0 <= p < 1.0
    ensures Along(p) == 89.991 * p && (p >= 0.99 ==> Along(p).Floor == 89)
  {
  }

  /** How many of the first `n` dots are drawn. */
  function Drawn(positions: seq<Point>, sizes: seq<real>, time: real, width: nat, height: nat, n: nat): nat
    requires |positions| == |sizes| == NUMBER_OF_JUMPS + 1 && 0.0 <= time < 1.0 && n <= DOT_COUNT
  {
    |Frame(positions, sizes, time, width, height, n)|
  }

  /** A dot of a frame is drawn, in its turn, if it is on the screen and more than a tenth of a pixel
      large, and only then. */
  lemma {:induction false} DotDrawnIff(positions: seq<Point>, sizes: seq<real>, time: real,
      width: nat, height: nat, i: nat, n: nat)
    requires |positions| == |sizes| == NUMBER_OF_JUMPS + 1 && 0.0 <= time < 1.0 && i < n <= DOT_COUNT
    ensures var dot, k := DotAt(positions, sizes, (i as real + time) / 50.0),
                          Drawn(positions, sizes, time, width, height, i);
            var dots := Frame(positions, sizes, time, width, height, n);
            if dot.at.x < width as real && dot.at.y < height as real && dot.size > 0.1 then
              k < |dots| && dots[k] == dot && Drawn(positions, sizes, time, width, height, i + 1) == k + 1
            else Drawn(positions, sizes, time, width, height, i + 1) == k
    ensures Drawn(positions, sizes, time, width, height, 0) == 0
    decreases n
  {
    hide DotAt;
    if i < n - 1 {
      DotDrawnIff(positions, sizes, time, width, height, i, n - 1);
    }
  }

  function LaterBy(time: real, frames: nat): real {
    if frames == 0 then time else Later(LaterBy(time, frames - 1))
  }

  /** Time goes round by a fiftieth of a turn in each frame: after fifty it is where it was. */
  lemma {:induction false} TimeGoesRound(time: real, frames: nat) returns (turns: nat)
    requires 0.0 <= time < 1.0
    ensures 0.0 <= LaterBy(time, frames) < 1.0
    ensures LaterBy(time, frames) + turns as real == time + frames as real * 0.02
  {
    turns := 0;
    if frames > 0 {
      turns := TimeGoesRound(time, frames - 1);
      if LaterBy(time, frames - 1) + 0.02 >= 1.0 {
        turns := turns + 1;
      }
    }
  }

  lemma FiftyFramesAreATurn(time: real)
    requires 0.0 <= time < 1.0
    ensures LaterBy(time, 50) == time
  {
    hide LaterBy;
    var turns := TimeGoesRound(time, 50);
  }

  /** In one turn every dot comes to where the next one was. */
  lemma DotsFollow(i: nat)
    ensures Place(i, 1.0) == Place(i + 1, 0.0) && Place(0, 0.0) == 0.0 && Place(50, 0.0) == 1.0
  {
  }

  class DotPathAnimation {
    const width: nat
    const height: nat
    var time: real
    var positions: seq<Point>
    var sizes: seq<real>

    ghost predicate Valid()
      reads this
    {
      && 0.0 <= time < 1.0
      && |positions| == |sizes| == NUMBER_OF_JUMPS + 1
      && sizes[0] == 0.0 && sizes[NUMBER_OF_JUMPS] == 0.0
      && forall k | 0 <= k < |sizes| :: 0.0 <= sizes[k] <= 2.5
    }

    constructor (width: nat, height: nat)
      ensures this.width == width && this.height == height
      ensures time == 0.0 && positions == [] && sizes == []
    {
      this.width, this.height := width, height;
      time, positions, sizes := 0.0, [], [];
    }

    /** Draws the path, once in an animation's life: a starting point within the margins and ninety jumps. */
    method Initialize(start: Point, draws: seq<Draw>)
      requires positions == [] && sizes == [] && 0.0 <= time < 1.0
      requires Inside(start, BoundsOf(width, height))
      requires |draws| == NUMBER_OF_JUMPS && forall k | 0 <= k < |draws| :: ValidDraw(draws[k])
      modifies this
      ensures Valid() && time == old(time)
      ensures positions == [start] + Walked(start, draws, BoundsOf(width, height))
      ensures forall k | 0 < k < NUMBER_OF_JUMPS :: sizes[k] == draws[k - 1].size
    {
      positions := [start];
      sizes := [0.0];
      GeneratePath(start, draws, BoundsOf(width, height));
      WalkedLength(start, draws, BoundsOf(width, height));
      assert sizes[NUMBER_OF_JUMPS - 1 + 1] == SizeAt(draws, NUMBER_OF_JUMPS - 1);
      forall k | 0 < k < NUMBER_OF_JUMPS ensures sizes[k] == draws[k - 1].size {
        assert sizes[k - 1 + 1] == SizeAt(draws, k - 1);
      }
      forall k | 0 <= k < |sizes| ensures 0.0 <= sizes[k] <= 2.5 {
        if k > 0 {
          assert sizes[k - 1 + 1] == SizeAt(draws, k - 1) && ValidDraw(draws[k - 1]);
        }
      }
    }

    method GeneratePath(start: Point, draws: seq<Draw>, b: Bounds)
      requires positions == [start] && sizes == [0.0]
      requires |draws| == NUMBER_OF_JUMPS && forall k | 0 <= k < |draws| :: ValidDraw(draws[k])
      modifies this
      ensures time == old(time)
      ensures positions == [start] + Walked(start, draws, b)
      ensures |positions| == |sizes| == NUMBER_OF_JUMPS + 1 && sizes[0] == 0.0
      ensures forall k | 0 <= k < NUMBER_OF_JUMPS :: sizes[k + 1] == SizeAt(draws, k)
    {
      var p := start;
      for i := 0 to NUMBER_OF_JUMPS
        invariant time == old(time)
        invariant |positions| == |sizes| == i + 1 && sizes[0] == 0.0
        invariant positions + Walked(p, draws[i..], b) == [start] + Walked(start, draws, b)
        invariant forall k | 0 <= k < i :: sizes[k + 1] == SizeAt(draws, k)
      {
        var d := draws[i];
        var x, y := ApplyJump(p.x, p.y, d);
        x, y := ClampToBounds(x, y, d.length, b);
        p := Point(x, y);
        positions := positions + [p];
        sizes := sizes + [if i == NUMBER_OF_JUMPS - 1 then 0.0 else d.size];
      }
    }

    static method ApplyJump(x: real, y: real, d: Draw) returns (x': real, y': real)
      ensures x' == x + StepX(d) && y' == y + StepY(d)
    {
      x', y' := x, y;
      match d.direction
      case 0 => x' := x' + d.length;
      case 1 => x' := x' - d.length;
      case 2 => y' := y' + d.length;
      case 3 => y' := y' - d.length;
      case 4 => x' := x' + d.length * DIAGONAL; y' := y' + d.length * DIAGONAL;
      case 5 => x' := x' - d.length * DIAGONAL; y' := y' + d.length * DIAGONAL;
      case 6 => x' := x' + d.length * DIAGONAL; y' := y' - d.length * DIAGONAL;
      case 7 => x' := x' - d.length * DIAGONAL; y' := y' - d.length * DIAGONAL;
      case _ =>
    }

    static method ClampToBounds(x: real, y: real, length: real, b: Bounds) returns (x': real, y': real)
      ensures x' == Bounced(x, length, b.x.lo, b.x.hi) && y' == Bounced(y, length, b.y.lo, b.y.hi)
    {
      x', y' := x, y;
      if x > b.x.hi {
        x' := x - 2.0 * length;
      } else if x < b.x.lo {
        x' := x + 2.0 * length;
      }
      if y > b.y.hi {
        y' := y - 2.0 * length;
      } else if y < b.y.lo {
        y' := y + 2.0 * length;
      }
    }

    /** Where on the path, and how large, a dot is that has come the fraction `p` of the way. */
    method GetPositionAndSize(p: real) returns (dot: Dot)
      requires Valid() && 0.0 <= p < 1.0
      ensures dot == DotAt(positions, sizes, p)
    {
      hide Ease;
      LookupInRange(p);
      var floatIndex := p * NUMBER_OF_JUMPS as real * 0.9999;
      var i1 := floatIndex.Floor;
      var i2 := i1 + 1;
      var t := Ease(floatIndex - i1 as real, 4);
      var pos1, pos2 := positions[i1], positions[i2];
      var x := pos1.x + (pos2.x - pos1.x) * t;
      var y := pos1.y + (pos2.y - pos1.y) * t;
      var size := sizes[i1] + (sizes[i2] - sizes[i1]) * t;
      dot := Dot(Point(x, y), size);
    }

    /** One frame: the dots along the path, and the time moved on around its circle. */
    method Animate() returns (drawn: seq<Dot>)
      requires Valid()
      modifies this`time
      ensures Valid() && time == Later(old(time))
      ensures drawn == Frame(positions, sizes, old(time), width, height, DOT_COUNT)
    {
      hide DotAt;
      drawn := [];
      for i := 0 to DOT_COUNT
        invariant Valid() && time == old(time)
        invariant drawn == Frame(positions, sizes, time, width, height, i)
      {
        var dot := GetPositionAndSize((i as real + time) / DOT_COUNT as real);
        if dot.at.x < width as real && dot.at.y < height as real && dot.size > 0.1 {
          drawn := drawn + [dot];
        }
      }
      time := time + 0.02;
      if time >= 1.0 {
        time := time - 1.0;
      }
    }
  }
}
