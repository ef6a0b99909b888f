/** The left edge of a chart: the time its oldest visible pixel stands for. */
module Edges {
  import opened Reals
  import opened SeriesModel

  /** Rounds towards zero. */
  function Trunc(x: real): int {
    if x >= 0.0 then x.Floor else -((-x).Floor)
  }

  /** The remainder with the sign of the dividend. */
  function Rem(a: real, b: real): real
    requires b != 0.0
  {
    a - Times(Trunc(Over(a, b)) as real, b)
  }

  /** The time drawn at the right edge, rounded to whole pixels, less the chart's width. */
  function Cutoff(time: real, millisPerPixel: real, width: nat): real
    requires millisPerPixel != 0.0
  {
    time - Rem(time, millisPerPixel) - Times(width as real, millisPerPixel)
  }

  /** `rounded` is a whole number of pixels, less than a pixel from `time` on zero's side. */
  ghost predicate Rounds(rounded: real, time: real, millisPerPixel: real) {
    && (exists k: int :: rounded == Pixels(k, millisPerPixel))
    && -Abs(millisPerPixel) < time - rounded < Abs(millisPerPixel)
    && (time >= 0.0 ==> 0.0 <= rounded <= time)
    && (time <= 0.0 ==> time <= rounded <= 0.0)
  }

  function Pixels(k: int, millisPerPixel: real): real { Times(k as real, millisPerPixel) }

  /** `edge` lies `width` pixels before the time rounded towards zero to whole pixels. */
  ghost predicate IsEdge(edge: real, time: real, millisPerPixel: real, width: nat) {
    Rounds(edge + Pixels(width, millisPerPixel), time, millisPerPixel)
  }

  lemma TruncNear(x: real)
    ensures var k := Trunc(x) as real;
      && -1.0 < x - k < 1.0
      && (x >= 0.0 ==> 0.0 <= k <= x)
      && (x <= 0.0 ==> x <= k <= 0.0)
  {
  }

  lemma TruncOdd(x: real)
    ensures Trunc(-x) == -Trunc(x)
  {
  }

  lemma OnePixelMore(k: real, m: real)
    ensures Times(k + 1.0, m) == Times(k, m) + m && Times(k - 1.0, m) == Times(k, m) - m
  {
    Minus(k + 1.0, 1.0, m);
    Minus(k, 1.0, m);
    One(m);
  }

  lemma ScaleRounds(q: real, k: real, m: real)
    requires m > 0.0 && -1.0 < q - k < 1.0
    requires (q >= 0.0 ==> 0.0 <= k <= q) && (q <= 0.0 ==> q <= k <= 0.0)
    ensures var t, r := Times(q, m), Times(k, m);
      && -m < t - r < m
      && (t >= 0.0 ==> 0.0 <= r <= t)
      && (t <= 0.0 ==> t <= r <= 0.0)
  {
    OnePixelMore(k, m);
    Below(k + 1.0, q, m);
    Below(q, k - 1.0, m);
    Below(k, q, m);
    Below(q, k, m);
    assert Times(0.0, m) == 0.0;
    Below(0.0, q, m);
    Below(q, 0.0, m);
    Below(0.0, k, m);
    Below(k, 0.0, m);
  }

  lemma NegateBoth(a: real, m: real)
    ensures Times(a, -m) == Times(-a, m)
  {
  }

  lemma TruncRounds(time: real, m: real)
    requires m != 0.0
    ensures Rounds(Times(Trunc(Over(time, m)) as real, m), time, m)
  {
    var q := Over(time, m);
    var k := Trunc(q);
    OverTimes(time, m);
    assert Times(k as real, m) == Pixels(k, m);
    if m > 0.0 {
      TruncNear(q);
      ScaleRounds(q, k as real, m);
    } else {
      TruncOdd(q);
      TruncNear(-q);
      NegateBoth(q, m);
      NegateBoth(k as real, m);
      ScaleRounds(-q, -(k as real), -m);
      NegateBoth(-q, m);
      NegateBoth(-(k as real), m);
    }
  }

  /** The left edge is what the pixels make it. */
  lemma CutoffIsEdge(time: real, m: real, width: nat)
    requires m != 0.0
    ensures IsEdge(Cutoff(time, m, width), time, m, width)
  {
    TruncRounds(time, m);
    assert Cutoff(time, m, width) + Pixels(width, m) == Times(Trunc(Over(time, m)) as real, m);
  }

  /** And nothing else is. */
  lemma EdgeUnique(a: real, b: real, time: real, m: real, width: nat)
    requires m != 0.0 && IsEdge(a, time, m, width) && IsEdge(b, time, m, width)
    ensures a == b
  {
    var w := Pixels(width, m);
    var j: int :| a + w == Pixels(j, m);
    var k: int :| b + w == Pixels(k, m);
    Minus(j as real, k as real, m);
    WholeGap(j, k, m);
  }

  lemma WholeGap(j: int, k: int, m: real)
    requires m != 0.0 && -Abs(m) < Times(j as real - k as real, m) < Abs(m)
    ensures j == k
  {
    var d := j as real - k as real;
    One(Abs(m));
    if m < 0.0 {
      NegateBoth(d, m);
      NegateBoth(-d, m);
      Below(1.0, -d, -m);
      Below(1.0, d, -m);
      TimesMinus(d, -m);
    } else {
      Below(1.0, d, m);
      Below(1.0, -d, m);
      TimesMinus(d, m);
    }
  }

  lemma TruncMonotone(x: real, y: real)
    requires x <= y
    ensures Trunc(x) <= Trunc(y)
  {
  }

  /** Time going forward never moves the left edge back, whatever the scale. */
  lemma CutoffMonotone(s: real, t: real, m: real, width: nat)
    requires s <= t && m != 0.0
    ensures Cutoff(s, m, width) <= Cutoff(t, m, width)
  {
    var p, q := Over(s, m), Over(t, m);
    OverTimes(s, m);
    OverTimes(t, m);
    var j, k := Trunc(p) as real, Trunc(q) as real;
    if m > 0.0 {
      Below(p, q, m);
      TruncMonotone(p, q);
      Below(j, k, m);
    } else {
      NegateBoth(-p, m);
      NegateBoth(-q, m);
      Below(-p, -q, -m);
      TruncMonotone(q, p);
      NegateBoth(-j, m);
      NegateBoth(-k, m);
      Below(-j, -k, -m);
    }
  }

  // ------------------------------------------------------------- what stays visible

  /** The edge is a whole number of pixels: for times since 1970 between `width` and
      `width` + 1 pixels back, before that up to a pixel less than `width`. */
  lemma EdgeBounds(edge: real, time: real, m: real, width: nat)
    requires m > 0.0 && IsEdge(edge, time, m, width)
    ensures exists k: int :: edge == Pixels(k, m)
    ensures time >= 0.0 ==> time - Pixels(width + 1, m) < edge <= time - Pixels(width, m)
    ensures time <= 0.0 ==> time - Pixels(width, m) <= edge < time - Pixels(width, m) + m
  {
    OnePixelMore(width as real, m);
    var k: int :| edge + Pixels(width, m) == Pixels(k, m);
    Minus(k as real, width as real, m);
    assert edge == Pixels(k - width, m);
  }

  /** The pruned data has no second point that is more than a pixel past the left edge. */
  ghost predicate NoneHidden(data: seq<Point>, time: real, m: real, width: nat) {
    |data| >= 2 ==> data[1].t >= time - Pixels(width + 1, m)
  }

  /** No point at or after the time `width` pixels ago is missing from the end of `h`. */
  ghost predicate AllVisible(h: seq<Point>, data: seq<Point>, time: real, m: real, width: nat) {
    && |data| <= |h| && data == h[|h| - |data|..]
    && forall i :: 0 <= i < |h| - |data| ==> h[i].t < time - Pixels(width, m)
  }

  ghost predicate Ordered(h: seq<Point>) {
    forall i, j :: 0 <= i < j < |h| ==> h[i].t <= h[j].t
  }

  ghost predicate Leaves(h: seq<Point>, edge: real, time: real, m: real, width: nat) {
    && NoneHidden(Prune(h, edge), time, m, width)
    && (Ordered(h) ==> AllVisible(h, Prune(h, edge), time, m, width))
  }

  /** What a render at an edge leaves: no second point long past the left edge, and, with
      timestamps in order, every point the chart is wide enough for. */
  lemma RenderLeaves(h: seq<Point>, edge: real, time: real, m: real, width: nat)
    requires m > 0.0 && time >= 0.0 && IsEdge(edge, time, m, width)
    ensures Leaves(h, edge, time, m, width)
  {
    EdgeBounds(edge, time, m, width);
    var k := PruneMeaning(h, edge);
    if |h| >= 2 && h[1].t < edge && Ordered(h) {
      assert h[0].t <= h[1].t;
    }
  }
}
