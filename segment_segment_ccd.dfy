// The static segment-segment and point-segment proximity tests used by the continuous
// segment collision: the parameters of the closest points, chosen by classifying the
// unconstrained minimiser into one of nine regions of the (r, s) plane and clamping.
module SegmentSegmentCcdStaticContact {
  import opened Wrappers
  import opened Vectors

  /** The tolerance below which a squared length or the determinant counts as zero. */
  const DegenerateEpsilon: real := 1e-15

  datatype Segment = Segment(p0: Vec3, p1: Vec3)

  /** The point (1 - t) p0 + t p1 of a segment. */
  function PointAt(seg: Segment, t: real): Vec3 { Interpolate(seg.p0, seg.p1, t) }

  /** Math::clamp: values within `eps` of a bound snap to it; when the two bands overlap the
      upper bound is tested first. */
  function Clamp(value: real, lo: real, hi: real, eps: real): (r: real)
    requires lo <= hi && eps >= 0.0
    ensures lo <= r <= hi
    ensures lo + eps < value < hi - eps ==> r == value
  {
    if value >= hi - eps then hi else if value <= lo + eps then lo else value
  }

  /** Which edge of the unit square the closest parameters are clamped to; EdgeSkip leaves
      the interior minimiser, EdgeInvalid is the initial value that is never returned. */
  datatype EdgeType = EdgeInvalid | EdgeSkip | EdgeR0 | EdgeR1 | EdgeS0 | EdgeS1

  /** The region classification of the unscaled minimiser (r, s) = (be - cd, bd - ae) against
      the scaled square [0, ratio]^2. */
  function ComputeCollisionEdge(a: real, b: real, d: real, r: real, s: real, ratio: real): (edge: EdgeType)
    ensures edge != EdgeInvalid
    ensures edge == EdgeSkip <==> 0.0 <= r <= ratio && 0.0 <= s <= ratio
    ensures edge == EdgeR0 ==> r < 0.0
    ensures edge == EdgeR1 ==> r > ratio
    ensures edge == EdgeS0 ==> s < 0.0
    ensures edge == EdgeS1 ==> s > ratio
  {
    if r >= 0.0 then
      if r <= ratio then
        if s >= 0.0 then
          if s <= ratio then EdgeSkip else EdgeS1
        else EdgeS0
      else
        if s >= 0.0 then
          if s <= ratio then EdgeR1
          else if a + b + d > 0.0 then EdgeS1 else EdgeR1
        else if a + d > 0.0 then EdgeS0 else EdgeR1
    else
      if s >= 0.0 then
        if s <= ratio then EdgeR0
        else if b + d > 0.0 then EdgeR0 else EdgeS1
      else if d > 0.0 then EdgeR0 else EdgeS0
  }

  /** The minimiser over [0, 1] of k t^2 + 2 g t: -g / k clamped, compared before dividing. */
  function EdgeMinimiser(k: real, g: real): (t: real)
    requires k > 0.0
    ensures InUnit(t)
  {
    var tmp := -g;
    if tmp < 0.0 then 0.0 else if tmp > k then 1.0 else tmp / k
  }

  /** The clamped value minimises the one-dimensional quadratic over the unit interval. */
  lemma EdgeMinimiserMinimises(k: real, g: real, sigma: real)
    requires k > 0.0 && InUnit(sigma)
    ensures var t := EdgeMinimiser(k, g);
            k * t * t + 2.0 * g * t <= k * sigma * sigma + 2.0 * g * sigma
  {
    var t := EdgeMinimiser(k, g);
    // The difference factors as (sigma - t) (k (sigma + t) + 2 g).
    assert k * sigma * sigma + 2.0 * g * sigma - (k * t * t + 2.0 * g * t)
        == (sigma - t) * (k * (sigma + t) + 2.0 * g);
    if -g < 0.0 {
      assert t == 0.0;
      assert k * (sigma + t) + 2.0 * g >= 0.0;
      MulNonNegative(sigma - t, k * (sigma + t) + 2.0 * g);
    } else if -g > k {
      assert t == 1.0;
      assert k * (sigma + t) + 2.0 * g <= 2.0 * k + 2.0 * g < 0.0 by {
        assert k * (sigma + t) <= k * 2.0;
      }
      MulNonNegative(t - sigma, -(k * (sigma + t) + 2.0 * g));
    } else {
      assert k * t == -g;
      assert k * (sigma + t) + 2.0 * g == k * (sigma - t);
      MulNonNegative(sigma - t, k * (sigma - t));
      assert (sigma - t) * (k * (sigma - t)) >= 0.0 by {
        MulNonNegative(k, (sigma - t) * (sigma - t));
        assert (sigma - t) * (k * (sigma - t)) == k * ((sigma - t) * (sigma - t));
      }
    }
  }

  lemma MulNonNegative(x: real, y: real)
    requires (x >= 0.0 && y >= 0.0) || (x <= 0.0 && y <= 0.0)
    ensures x * y >= 0.0
  {
  }

  /** The closest parameters. */
  datatype Params = Params(r: real, s: real)

  /** The parameters on the chosen edge, or the interior minimiser scaled by 1 / ratio; on
      entry r and s are the unscaled infinite-line minimiser. */
  function ComputeCollisionParametrics(edge: EdgeType, a: real, b: real, c: real, d: real, e: real,
                                       ratio: real, r: real, s: real): (p: Params)
    requires a > 0.0 && c > 0.0 && ratio > 0.0
    ensures edge == EdgeR0 ==> p == Params(0.0, EdgeMinimiser(c, e))
    ensures edge == EdgeR1 ==> p == Params(1.0, EdgeMinimiser(c, b + e))
    ensures edge == EdgeS0 ==> p == Params(EdgeMinimiser(a, d), 0.0)
    ensures edge == EdgeS1 ==> p == Params(EdgeMinimiser(a, b + d), 1.0)
    ensures edge == EdgeSkip ==> p.r * ratio == r && p.s * ratio == s
  {
    match edge
    case EdgeR0 =>
      var tmp := -e;
      Params(0.0, if tmp < 0.0 then 0.0 else if tmp > c then 1.0 else tmp / c)
    case EdgeR1 =>
      var tmp := -b - e;
      Params(1.0, if tmp < 0.0 then 0.0 else if tmp > c then 1.0 else tmp / c)
    case EdgeS0 =>
      var tmp := -d;
      Params(if tmp < 0.0 then 0.0 else if tmp > a then 1.0 else tmp / a, 0.0)
    case EdgeS1 =>
      var tmp := -b - d;
      Params(if tmp < 0.0 then 0.0 else if tmp > a then 1.0 else tmp / a, 1.0)
    case EdgeSkip =>
      var tmp := 1.0 / ratio;
      Params(r * tmp, s * tmp)
    case EdgeInvalid => Params(r, s)
  }

  /** The parameters for (nearly) parallel segments: an end point against the other segment. */
  function ComputeParallelSegmentParametrics(a: real, b: real, d: real): (p: Params)
    requires a > 0.0
    ensures InUnit(p.r) && InUnit(p.s)
  {
    if b > 0.0 then
      if d >= 0.0 then Params(0.0, 0.0)
      else if -d <= a then
        assert InUnit(-d / a) by { Ratio(-d, a); }
        Params(-d / a, 0.0)
      else
        var tmp := a + d;
        if -tmp >= b then Params(1.0, 1.0)
        else
          assert InUnit(-tmp / b) by { Ratio(-tmp, b); }
          Params(1.0, -tmp / b)
    else
      if -d >= a then Params(1.0, 0.0)
      else if d <= 0.0 then
        assert InUnit(-d / a) by { Ratio(-d, a); }
        Params(-d / a, 0.0)
      else if d >= -b then Params(0.0, 1.0)
      else
        assert InUnit(-d / b) by { UnitAfterScaling(d, -b, -d / b); }
        Params(0.0, -d / b)
  }

  /** Outcome of a proximity test: whether the closest points are within the total thickness,
      and the parameters the test set (`None` where it leaves them unset). */
  datatype PointSegmentResult = PointSegmentResult(hit: bool, r: Option<real>)

  datatype SegmentSegmentResult = SegmentSegmentResult(hit: bool, r: Option<real>, s: Option<real>)

  /** The thickness test between the point and the segment point at parameter r. */
  predicate WithinThickness(point: Vec3, seg: Segment, r: real, thicknessPoint: real, thicknessSegment: real) {
    SquaredNorm(Sub(PointAt(seg, r), point)) <= (thicknessPoint + thicknessSegment) * (thicknessPoint + thicknessSegment)
  }

  function CollideStaticPointSegment(point: Vec3, seg: Segment, thicknessPoint: real, thicknessSegment: real)
    : PointSegmentResult
  {
    var ba := Sub(point, seg.p0);
    var ca := Sub(point, seg.p1);
    var bc := Sub(seg.p1, seg.p0);
    var totalThicknessSq := (thicknessPoint + thicknessSegment) * (thicknessPoint + thicknessSegment);
    if SquaredNorm(bc) < DegenerateEpsilon then
      if SquaredNorm(ba) <= totalThicknessSq then PointSegmentResult(true, Some(0.0))
      else if SquaredNorm(ca) <= totalThicknessSq then PointSegmentResult(true, Some(1.0))
      else PointSegmentResult(false, None)
    else
      var r := Clamp(Dot(bc, ba) / SquaredNorm(bc), 0.0, 1.0, 0.0);
      PointSegmentResult(SquaredNorm(Sub(PointAt(seg, r), point)) <= totalThicknessSq, Some(r))
  }

  /** The squared distance from `point` to the segment point at sigma, as a quadratic in sigma. */
  lemma PointSegmentDistanceQuadratic(point: Vec3, seg: Segment, sigma: real)
    ensures var bc := Sub(seg.p1, seg.p0);
            var ba := Sub(point, seg.p0);
            SquaredNorm(Sub(PointAt(seg, sigma), point))
              == SquaredNorm(bc) * sigma * sigma + 2.0 * (-Dot(bc, ba)) * sigma + SquaredNorm(ba)
  {
  }

  /** The point-segment test sets r within [0, 1] whenever it sets it, and reports a hit
      exactly when the point at r is within the total thickness. */
  lemma PointSegmentHit(point: Vec3, seg: Segment, thicknessPoint: real, thicknessSegment: real)
    ensures var res := CollideStaticPointSegment(point, seg, thicknessPoint, thicknessSegment);
            (res.r.Some? ==> InUnit(res.r.value))
            && (res.hit <==> res.r.Some? && WithinThickness(point, seg, res.r.value, thicknessPoint, thicknessSegment))
  {
    var ba := Sub(point, seg.p0);
    if SquaredNorm(Sub(seg.p1, seg.p0)) < DegenerateEpsilon {
      if SquaredNorm(ba) > (thicknessPoint + thicknessSegment) * (thicknessPoint + thicknessSegment) {
        assert PointAt(seg, 1.0) == seg.p1;
      }
      assert PointAt(seg, 0.0) == seg.p0;
    }
  }

  /** Clamping the projection ratio x = -g / k to [0, 1] is the minimiser of k t^2 + 2 g t. */
  lemma ClampIsEdgeMinimiser(k: real, g: real, x: real)
    requires k > 0.0 && x * k == -g
    ensures Clamp(x, 0.0, 1.0, 0.0) == EdgeMinimiser(k, g)
  {
    if -g < 0.0 {
      assert x < 0.0;
    } else if -g > k {
      assert x > 1.0;
    } else {
      assert 0.0 <= x <= 1.0;
      assert (-g) / k * k == -g;
      assert (x - (-g) / k) * k == x * k - (-g) / k * k;
      ZeroFactor(x - (-g) / k, k);
    }
  }

  /** For a proper segment the point-segment test sets r, and r is the parameter of the point
      of the segment closest to the point. */
  lemma PointSegmentClosest(point: Vec3, seg: Segment, thicknessPoint: real, thicknessSegment: real)
    ensures var res := CollideStaticPointSegment(point, seg, thicknessPoint, thicknessSegment);
            SquaredNorm(Sub(seg.p1, seg.p0)) >= DegenerateEpsilon ==>
              res.r.Some?
              && forall sigma :: InUnit(sigma) ==>
                   SquaredNorm(Sub(PointAt(seg, res.r.value), point)) <= SquaredNorm(Sub(PointAt(seg, sigma), point))
  {
    var res := CollideStaticPointSegment(point, seg, thicknessPoint, thicknessSegment);
    var bc := Sub(seg.p1, seg.p0);
    var ba := Sub(point, seg.p0);
    var k := SquaredNorm(bc);
    if k >= DegenerateEpsilon {
      var g := -Dot(bc, ba);
      ClampIsEdgeMinimiser(k, g, Dot(bc, ba) / k);
      MinimiserIsClosest(point, seg, k, g, res.r.value);
    }
  }

  /** The minimiser of the distance quadratic is the parameter of the closest point. */
  lemma MinimiserIsClosest(point: Vec3, seg: Segment, k: real, g: real, r: real)
    requires k == SquaredNorm(Sub(seg.p1, seg.p0)) && k > 0.0 && g == -Dot(Sub(seg.p1, seg.p0), Sub(point, seg.p0))
    requires r == EdgeMinimiser(k, g)
    ensures forall sigma :: InUnit(sigma) ==>
              SquaredNorm(Sub(PointAt(seg, r), point)) <= SquaredNorm(Sub(PointAt(seg, sigma), point))
  {
    forall sigma | InUnit(sigma)
      ensures SquaredNorm(Sub(PointAt(seg, r), point)) <= SquaredNorm(Sub(PointAt(seg, sigma), point))
    {
      EdgeMinimiserMinimises(k, g, sigma);
      PointSegmentDistanceQuadratic(point, seg, sigma);
      PointSegmentDistanceQuadratic(point, seg, r);
    }
  }

  /** The coefficients of the squared distance a r^2 + 2 b r s + c s^2 + 2 d r + 2 e s + f
      between P(r) and Q(s). */
  datatype Coefficients = Coefficients(a: real, b: real, c: real, d: real, e: real)

  function CoefficientsOf(p: Segment, q: Segment): (k: Coefficients)
    ensures k.a == SquaredNorm(Sub(p.p1, p.p0)) && k.c == SquaredNorm(Sub(q.p1, q.p0))
  {
    var p0p1 := Sub(p.p1, p.p0);
    var q0q1 := Sub(q.p1, q.p0);
    var q0p0 := Sub(p.p0, q.p0);
    Coefficients(Dot(p0p1, p0p1), -Dot(p0p1, q0q1), Dot(q0q1, q0q1), Dot(p0p1, q0p0), -Dot(q0q1, q0p0))
  }

  /** a c - b^2, which vanishes exactly when the segments are parallel. */
  function Determinant(k: Coefficients): real { k.a * k.c - k.b * k.b }

  /** The closest-point parameters of two proper segments: the region-clamped minimiser when
      the determinant a c - b^2 is not negligible, the parallel rule otherwise. */
  function ParametersFor(k: Coefficients): Params
    requires k.a > DegenerateEpsilon && k.c > DegenerateEpsilon
  {
    var ratio := Determinant(k);
    if ratio >= DegenerateEpsilon then
      var infiniteLineR := k.b * k.e - k.c * k.d;
      var infiniteLineS := k.b * k.d - k.a * k.e;
      var edge := ComputeCollisionEdge(k.a, k.b, k.d, infiniteLineR, infiniteLineS, ratio);
      ComputeCollisionParametrics(edge, k.a, k.b, k.c, k.d, k.e, ratio, infiniteLineR, infiniteLineS)
    else
      ComputeParallelSegmentParametrics(k.a, k.b, k.d)
  }

  function CollideStaticSegmentSegment(p: Segment, q: Segment, radiusP: real, radiusQ: real): SegmentSegmentResult {
    if SquaredNorm(Sub(p.p1, p.p0)) <= DegenerateEpsilon then
      var res := CollideStaticPointSegment(p.p0, q, radiusP, radiusQ);
      SegmentSegmentResult(res.hit, Some(0.0), res.r)
    else if SquaredNorm(Sub(q.p1, q.p0)) <= DegenerateEpsilon then
      var res := CollideStaticPointSegment(q.p0, p, radiusQ, radiusP);
      SegmentSegmentResult(res.hit, res.r, Some(0.0))
    else
      var params := ParametersFor(CoefficientsOf(p, q));
      var pq := Sub(PointAt(q, params.s), PointAt(p, params.r));
      SegmentSegmentResult(SquaredNorm(pq) <= (radiusP + radiusQ) * (radiusP + radiusQ), Some(params.r), Some(params.s))
  }

  /** The single-tolerance overload: each segment gets half of the tolerance as its radius. */
  function CollideStaticSegmentSegmentWithin(p: Segment, q: Segment, distanceEpsilon: real): (res: SegmentSegmentResult)
    ensures res.hit <==> res.r.Some? && res.s.Some?
                         && SquaredNorm(Sub(PointAt(q, res.s.value), PointAt(p, res.r.value))) <= distanceEpsilon * distanceEpsilon
  {
    var half := distanceEpsilon / 2.0;
    HalvesOutcome(p, q, half, distanceEpsilon);
    CollideStaticSegmentSegment(p, q, half, half)
  }

  lemma HalvesOutcome(p: Segment, q: Segment, half: real, distanceEpsilon: real)
    requires half + half == distanceEpsilon
    ensures var res := CollideStaticSegmentSegment(p, q, half, half);
            res.hit <==> res.r.Some? && res.s.Some?
                         && SquaredNorm(Sub(PointAt(q, res.s.value), PointAt(p, res.r.value))) <= distanceEpsilon * distanceEpsilon
  {
    var res := CollideStaticSegmentSegment(p, q, half, half);
    SegmentSegmentOutcome(p, q, half, half);
    assert (half + half) * (half + half) == distanceEpsilon * distanceEpsilon;
  }

  /** For proper segments both parameters lie in [0, 1], whichever branch computes them. */
  lemma ParametersInUnit(k: Coefficients)
    requires k.a > DegenerateEpsilon && k.c > DegenerateEpsilon
    ensures InUnit(ParametersFor(k).r) && InUnit(ParametersFor(k).s)
  {
    if Determinant(k) >= DegenerateEpsilon {
      RegionParametersInUnit(k.a, k.b, k.c, k.d, k.e, Determinant(k), k.b * k.e - k.c * k.d, k.b * k.d - k.a * k.e);
    } else {
      ParallelBranch(k);
    }
  }

  lemma ParallelBranch(k: Coefficients)
    requires k.a > DegenerateEpsilon && k.c > DegenerateEpsilon
    requires Determinant(k) < DegenerateEpsilon
    ensures ParametersFor(k) == ComputeParallelSegmentParametrics(k.a, k.b, k.d)
  {
  }

  /** The region rule lands in the unit square for any unscaled minimiser (r, s). */
  lemma RegionParametersInUnit(a: real, b: real, c: real, d: real, e: real, ratio: real, r: real, s: real)
    requires a > 0.0 && c > 0.0 && ratio > 0.0
    ensures var params := ComputeCollisionParametrics(ComputeCollisionEdge(a, b, d, r, s, ratio), a, b, c, d, e, ratio, r, s);
            InUnit(params.r) && InUnit(params.s)
  {
    var edge := ComputeCollisionEdge(a, b, d, r, s, ratio);
    var params := ComputeCollisionParametrics(edge, a, b, c, d, e, ratio, r, s);
    if edge == EdgeSkip {
      UnitAfterScaling(r, ratio, params.r);
      UnitAfterScaling(s, ratio, params.s);
    }
  }

  lemma UnitAfterScaling(x: real, ratio: real, y: real)
    requires ratio > 0.0 && 0.0 <= x <= ratio && y * ratio == x
    ensures InUnit(y)
  {
    Ratio(x, ratio);
    assert y == x / ratio;
  }

  /** A quotient of 0 <= x <= k by k > 0 lies in [0, 1]. */
  lemma Ratio(x: real, k: real)
    requires k > 0.0 && 0.0 <= x <= k
    ensures InUnit(x / k)
  {
    var y := x / k;
    assert y * k == x;
    if y < 0.0 {
      MulNonNegative(-y, k);
    }
    if y > 1.0 {
      MulNonNegative(y - 1.0, k);
    }
  }

  /** In the interior region the scaled parameters are a stationary point of the squared
      distance a r^2 + 2 b r s + c s^2 + 2 d r + 2 e s + f: both partial derivatives vanish. */
  lemma InteriorIsStationary(a: real, b: real, c: real, d: real, e: real, ratio: real)
    requires a > 0.0 && c > 0.0 && ratio == a * c - b * b && ratio > 0.0
    requires ComputeCollisionEdge(a, b, d, b * e - c * d, b * d - a * e, ratio) == EdgeSkip
    ensures var params := ComputeCollisionParametrics(EdgeSkip, a, b, c, d, e, ratio, b * e - c * d, b * d - a * e);
            a * params.r + b * params.s + d == 0.0 && b * params.r + c * params.s + e == 0.0
  {
    var params := ComputeCollisionParametrics(EdgeSkip, a, b, c, d, e, ratio, b * e - c * d, b * d - a * e);
    var r, s := params.r, params.s;
    assert r * ratio == b * e - c * d && s * ratio == b * d - a * e;
    FirstDerivativeVanishes(a, b, c, d, e, r, s, ratio);
    SecondDerivativeVanishes(a, b, c, d, e, r, s, ratio);
  }

  /** The scaled solution of the 2x2 system zeroes the derivative in r. */
  lemma FirstDerivativeVanishes(a: real, b: real, c: real, d: real, e: real, r: real, s: real, ratio: real)
    requires ratio == a * c - b * b && ratio != 0.0
    requires r * ratio == b * e - c * d && s * ratio == b * d - a * e
    ensures a * r + b * s + d == 0.0
  {
    assert (a * r + b * s + d) * ratio == a * (r * ratio) + b * (s * ratio) + d * ratio;
    assert a * (b * e - c * d) + b * (b * d - a * e) + d * (a * c - b * b) == 0.0;
    ZeroFactor(a * r + b * s + d, ratio);
  }

  /** The scaled solution of the 2x2 system zeroes the derivative in s. */
  lemma SecondDerivativeVanishes(a: real, b: real, c: real, d: real, e: real, r: real, s: real, ratio: real)
    requires ratio == a * c - b * b && ratio != 0.0
    requires r * ratio == b * e - c * d && s * ratio == b * d - a * e
    ensures b * r + c * s + e == 0.0
  {
    assert (b * r + c * s + e) * ratio == b * (r * ratio) + c * (s * ratio) + e * ratio;
    assert b * (b * e - c * d) + c * (b * d - a * e) + e * (a * c - b * b) == 0.0;
    ZeroFactor(b * r + c * s + e, ratio);
  }

  lemma ZeroFactor(x: real, k: real)
    requires k != 0.0 && x * k == 0.0
    ensures x == 0.0
  {
  }

  /** On the edge r = 0 the free parameter s minimises the squared distance along that edge. */
  lemma EdgeR0Minimises(a: real, b: real, c: real, d: real, e: real, ratio: real, r0: real, s0: real, sigma: real)
    requires a > 0.0 && c > 0.0 && ratio > 0.0 && InUnit(sigma)
    ensures var p := ComputeCollisionParametrics(EdgeR0, a, b, c, d, e, ratio, r0, s0);
            c * p.s * p.s + 2.0 * e * p.s <= c * sigma * sigma + 2.0 * e * sigma
  {
    EdgeMinimiserMinimises(c, e, sigma);
  }

  /** On the edge r = 1 the free parameter s minimises the squared distance along that edge. */
  lemma EdgeR1Minimises(a: real, b: real, c: real, d: real, e: real, ratio: real, r0: real, s0: real, sigma: real)
    requires a > 0.0 && c > 0.0 && ratio > 0.0 && InUnit(sigma)
    ensures var p := ComputeCollisionParametrics(EdgeR1, a, b, c, d, e, ratio, r0, s0);
            c * p.s * p.s + 2.0 * (b + e) * p.s <= c * sigma * sigma + 2.0 * (b + e) * sigma
  {
    EdgeMinimiserMinimises(c, b + e, sigma);
  }

  /** On the edge s = 0 the free parameter r minimises the squared distance along that edge. */
  lemma EdgeS0Minimises(a: real, b: real, c: real, d: real, e: real, ratio: real, r0: real, s0: real, sigma: real)
    requires a > 0.0 && c > 0.0 && ratio > 0.0 && InUnit(sigma)
    ensures var p := ComputeCollisionParametrics(EdgeS0, a, b, c, d, e, ratio, r0, s0);
            a * p.r * p.r + 2.0 * d * p.r <= a * sigma * sigma + 2.0 * d * sigma
  {
    EdgeMinimiserMinimises(a, d, sigma);
  }

  /** On the edge s = 1 the free parameter r minimises the squared distance along that edge. */
  lemma EdgeS1Minimises(a: real, b: real, c: real, d: real, e: real, ratio: real, r0: real, s0: real, sigma: real)
    requires a > 0.0 && c > 0.0 && ratio > 0.0 && InUnit(sigma)
    ensures var p := ComputeCollisionParametrics(EdgeS1, a, b, c, d, e, ratio, r0, s0);
            a * p.r * p.r + 2.0 * (b + d) * p.r <= a * sigma * sigma + 2.0 * (b + d) * sigma
  {
    EdgeMinimiserMinimises(a, b + d, sigma);
  }

  /** Every parameter the segment-segment test sets lies in [0, 1]; proper segments get both
      parameters; a degenerate P fixes r = 0 and a degenerate Q fixes s = 0; and the test
      reports a hit exactly when both parameters are set and the points they name are within
      the sum of the radii. */
  lemma SegmentSegmentOutcome(p: Segment, q: Segment, radiusP: real, radiusQ: real)
    ensures var res := CollideStaticSegmentSegment(p, q, radiusP, radiusQ);
            (res.r.Some? ==> InUnit(res.r.value)) && (res.s.Some? ==> InUnit(res.s.value))
    ensures var res := CollideStaticSegmentSegment(p, q, radiusP, radiusQ);
            SquaredNorm(Sub(p.p1, p.p0)) <= DegenerateEpsilon ==> res.r == Some(0.0)
    ensures var res := CollideStaticSegmentSegment(p, q, radiusP, radiusQ);
            SquaredNorm(Sub(p.p1, p.p0)) > DegenerateEpsilon && SquaredNorm(Sub(q.p1, q.p0)) <= DegenerateEpsilon
            ==> res.s == Some(0.0)
    ensures var res := CollideStaticSegmentSegment(p, q, radiusP, radiusQ);
            SquaredNorm(Sub(p.p1, p.p0)) > DegenerateEpsilon && SquaredNorm(Sub(q.p1, q.p0)) > DegenerateEpsilon
            ==> res.r.Some? && res.s.Some?
    ensures var res := CollideStaticSegmentSegment(p, q, radiusP, radiusQ);
            res.hit <==> res.r.Some? && res.s.Some?
                         && SquaredNorm(Sub(PointAt(q, res.s.value), PointAt(p, res.r.value)))
                            <= (radiusP + radiusQ) * (radiusP + radiusQ)
  {
    var res := CollideStaticSegmentSegment(p, q, radiusP, radiusQ);
    if SquaredNorm(Sub(p.p1, p.p0)) <= DegenerateEpsilon {
      PointSegmentHit(p.p0, q, radiusP, radiusQ);
      PointSegmentClosest(p.p0, q, radiusP, radiusQ);
      assert PointAt(p, 0.0) == p.p0;
    } else if SquaredNorm(Sub(q.p1, q.p0)) <= DegenerateEpsilon {
      PointSegmentHit(q.p0, p, radiusQ, radiusP);
      PointSegmentClosest(q.p0, p, radiusQ, radiusP);
      assert PointAt(q, 0.0) == q.p0;
      if res.r.Some? {
        var x := PointAt(p, res.r.value);
        assert SquaredNorm(Sub(q.p0, x)) == SquaredNorm(Sub(x, q.p0));
      }
    } else {
      ParametersInUnit(CoefficientsOf(p, q));
    }
  }
}
