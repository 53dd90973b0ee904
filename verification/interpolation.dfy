/**
  Linear interpolation of a classified cell (`linearInterpolation`): each
  contour point is moved along its edge of the unrotated frame to where the
  linear interpolant of the edge's two samples reaches alpha.

  The unrotated frame of a cell with rotation index n has corner n at its
  top-left, Next(n) at its top-right, Opp(n) at its bottom-right and Prec(n)
  at its bottom-left.
 */
module Interpolation {
  import opened CellTypes
  import opened Decider
  import opened Classifier

  /**
    How the PATTERN2S case picks its edges. As written, an odd rotation index
    selects the top and bottom edges; the crossings of such a cell lie on the
    left and right edges of its unrotated frame, whatever the index.
   */
  datatype AdjacentReading = EdgesAsWritten | EdgesIntended

  /** The corners at the two ends of an edge; the coordinate is measured from the first. */
  function EdgeEnds(e: Edge, n: CornerIndex): (CornerIndex, CornerIndex)
  {
    match e
    case Top => (n, Next(n))
    case Right => (Next(n), Opp(n))
    case Bottom => (Prec(n), Opp(n))
    case Left => (n, Prec(n))
  }

  /** The two samples at the ends of an edge differ, so the division is defined. */
  predicate Divisible(v: Values, e: Edge, n: CornerIndex)
  {
    v[EdgeEnds(e, n).0] != v[EdgeEnds(e, n).1]
  }

  /** Distance from corner a, along the edge towards corner b, at which the linear interpolant equals alpha. */
  function EdgeCoordinate(v: Values, alpha: real, a: CornerIndex, b: CornerIndex): real
    requires v[a] != v[b]
  {
    EdgeLength * (alpha - v[a]) / (v[b] - v[a])
  }

  /** The free coordinate of a point on an edge: x on top and bottom, y on left and right. */
  function FreeCoordinate(p: Point, e: Edge): real
  {
    if e == Top || e == Bottom then p.x else p.y
  }

  /** The interpolated point on an edge. */
  function Crossing(e: Edge, v: Values, alpha: real, n: CornerIndex): (q: Point)
    requires Divisible(v, e, n)
    ensures OnEdge(q, e)
    ensures FreeCoordinate(q, e) == EdgeCoordinate(v, alpha, EdgeEnds(e, n).0, EdgeEnds(e, n).1)
  {
    var t := EdgeCoordinate(v, alpha, EdgeEnds(e, n).0, EdgeEnds(e, n).1);
    match e
    case Top => Point(t, 0.0)
    case Left => Point(0.0, t)
    case Right => Point(EdgeLength, t)
    case Bottom => Point(t, EdgeLength)
  }

  /** The edges whose points the interpolation rewrites, in the order of the point list. */
  function RewrittenEdges(reading: AdjacentReading, p: Pattern): seq<Edge>
  {
    match p.pattern
    case Pattern0 => []
    case Pattern4 => []
    case Pattern1 => [Top, Left]
    case Pattern3 => [Top, Left]
    case Pattern2S =>
      if reading == EdgesIntended || p.patternNumber == 0 || p.patternNumber == 2 then [Left, Right]
      else [Top, Bottom]
    case Pattern2D =>
      match p.pattern2d
      case Pattern2dP => [Top, Right, Bottom, Left]
      case Pattern2dM => [Top, Left, Bottom, Right]
      case Pattern2dE => [Left, Right, Top, Bottom]
  }

  /** The point list has a slot for every rewritten edge and no rewritten edge divides by zero. */
  predicate Interpolable(reading: AdjacentReading, p: Pattern)
  {
    var es := RewrittenEdges(reading, p);
    && |es| <= |p.points|
    && forall k :: 0 <= k < |es| ==> Divisible(p.values, es[k], p.patternNumber)
  }

  function InterpolateBy(reading: AdjacentReading, p: Pattern): (q: Pattern)
    requires Interpolable(reading, p)
    ensures q == p.(points := q.points)
    ensures |q.points| == |p.points|
    ensures p.pattern in {Pattern0, Pattern4} ==> q == p
    ensures var es := RewrittenEdges(reading, p);
      forall k {:trigger q.points[k]} :: 0 <= k < |es| ==>
        && OnEdge(q.points[k], es[k])
        && FreeCoordinate(q.points[k], es[k])
           == EdgeCoordinate(p.values, p.alpha, EdgeEnds(es[k], p.patternNumber).0, EdgeEnds(es[k], p.patternNumber).1)
    ensures forall k {:trigger q.points[k]} :: |RewrittenEdges(reading, p)| <= k < |p.points| ==> q.points[k] == p.points[k]
  {
    var es := RewrittenEdges(reading, p);
    var pts := seq(|p.points|, k requires 0 <= k < |p.points| =>
      if k < |es| then Crossing(es[k], p.values, p.alpha, p.patternNumber) else p.points[k]);
    p.(points := pts)
  }

  /** `linearInterpolation` as written. */
  function LinearInterpolation(p: Pattern): Pattern
    requires Interpolable(EdgesAsWritten, p)
  {
    InterpolateBy(EdgesAsWritten, p)
  }

  /** `linearInterpolation` with PATTERN2S always on the left and right edges. */
  function LinearInterpolationIntended(p: Pattern): Pattern
    requires Interpolable(EdgesIntended, p)
  {
    InterpolateBy(EdgesIntended, p)
  }

  lemma ScaledQuotient(k: real, num: real, den: real)
    requires den != 0.0
    ensures k * num / den == k * (num / den)
  {
  }

  lemma QuotientNegate(num: real, den: real)
    requires den != 0.0
    ensures num / den == (-num) / (-den)
  {
  }

  lemma QuotientUnit(num: real, den: real)
    requires den > 0.0 && 0.0 <= num <= den
    ensures 0.0 <= num / den <= 1.0
    ensures num / den == 0.0 <==> num == 0.0
    ensures num / den == 1.0 <==> num == den
  {
  }

  lemma QuotientOutsideOpenUnit(num: real, den: real)
    requires 0.0 < den <= num || (den < 0.0 && 0.0 <= num)
    ensures num / den <= 0.0 || num / den >= 1.0
  {
    var t := num / den;
    assert t * den == num;
    if den < 0.0 {
      var m := -den;
      assert t * m == -num;
    }
  }

  lemma QuotientOutsideUnit(num: real, den: real)
    requires num < 0.0 < den || num < den < 0.0
    ensures num / den < 0.0 || num / den > 1.0
  {
    var t := num / den;
    assert t * den == num;
    if den < 0.0 {
      var m := -den;
      assert t * m == -num;
      assert -num > m > 0.0;
    }
  }

  /**
    The interpolated coordinate lies on the edge when alpha lies between the
    edge's two samples; it is 0 exactly when alpha is the first sample and
    50 exactly when alpha is the second.
   */
  lemma EdgeCoordinateBounds(v: Values, alpha: real, a: CornerIndex, b: CornerIndex)
    requires v[a] != v[b]
    requires v[a] <= alpha <= v[b] || v[b] <= alpha <= v[a]
    ensures 0.0 <= EdgeCoordinate(v, alpha, a, b) <= EdgeLength
    ensures EdgeCoordinate(v, alpha, a, b) == 0.0 <==> alpha == v[a]
    ensures EdgeCoordinate(v, alpha, a, b) == EdgeLength <==> alpha == v[b]
  {
    var num := alpha - v[a];
    var den := v[b] - v[a];
    ScaledQuotient(EdgeLength, num, den);
    if den > 0.0 {
      QuotientUnit(num, den);
    } else {
      QuotientNegate(num, den);
      QuotientUnit(-num, -den);
    }
  }

  /** Interpolating twice gives the same cell as interpolating once. */
  lemma InterpolationIdempotent(reading: AdjacentReading, p: Pattern)
    requires Interpolable(reading, p)
    ensures Interpolable(reading, InterpolateBy(reading, p))
    ensures InterpolateBy(reading, InterpolateBy(reading, p)) == InterpolateBy(reading, p)
  {
    var q := InterpolateBy(reading, p);
    assert RewrittenEdges(reading, q) == RewrittenEdges(reading, p);
    var r := InterpolateBy(reading, q);
    assert r.points == q.points;
  }

  /** An edge whose ends lie on opposite sides of alpha. */
  predicate Straddles(c: Corners, e: Edge, n: CornerIndex)
  {
    c[EdgeEnds(e, n).0] != c[EdgeEnds(e, n).1]
  }

  /** PATTERN2S with an odd rotation index: the one case where the as-written edge choice differs. */
  predicate OddAdjacent(p: Pattern)
  {
    p.pattern == Pattern2S && (p.patternNumber == 1 || p.patternNumber == 3)
  }

  /**
    Every edge the interpolation rewrites separates a marked from an unmarked
    corner, and the default point in that slot is the edge's midpoint.
   */
  predicate EdgesFit(reading: AdjacentReading, p: Pattern)
  {
    var es := RewrittenEdges(reading, p);
    && |es| == |p.points|
    && forall k :: 0 <= k < |es| ==> Straddles(p.corners, es[k], p.patternNumber) && p.points[k] == Midpoint(es[k])
  }

  lemma OneCornerFits(reading: AdjacentReading, p: Pattern)
    requires p.pattern in {Pattern1, Pattern3} && p.points == [TopMid, LeftMid]
    requires var n := p.patternNumber; p.corners[n] != p.corners[Next(n)] && p.corners[n] != p.corners[Prec(n)]
    ensures EdgesFit(reading, p)
  {
  }

  lemma AdjacentFits(reading: AdjacentReading, p: Pattern)
    requires p.pattern == Pattern2S && p.points == [LeftMid, RightMid]
    requires reading == EdgesIntended || !OddAdjacent(p)
    requires var n := p.patternNumber; p.corners[n] && p.corners[Next(n)] && !p.corners[Prec(n)] && !p.corners[Opp(n)]
    ensures EdgesFit(reading, p)
  {
  }

  /** Every edge of a cell with two opposite marked corners separates a marked from an unmarked corner. */
  lemma DiagonalStraddles(c: Corners, n: CornerIndex)
    requires c[n] && c[Opp(n)] && !c[Next(n)] && !c[Prec(n)]
    ensures Straddles(c, Top, n) && Straddles(c, Right, n) && Straddles(c, Bottom, n) && Straddles(c, Left, n)
  {
  }

  lemma DiagonalFits(reading: AdjacentReading, p: Pattern)
    requires p.pattern == Pattern2D && p.points == DiagonalPoints(p.pattern2d)
    requires var n := p.patternNumber; p.corners[n] && p.corners[Opp(n)] && !p.corners[Next(n)] && !p.corners[Prec(n)]
    ensures EdgesFit(reading, p)
  {
    DiagonalStraddles(p.corners, p.patternNumber);
    var es := RewrittenEdges(reading, p);
    match p.pattern2d
    case Pattern2dP =>
      assert es == [Top, Right, Bottom, Left];
      assert p.points == [Midpoint(Top), Midpoint(Right), Midpoint(Bottom), Midpoint(Left)];
    case Pattern2dM =>
      assert es == [Top, Left, Bottom, Right];
      assert p.points == [Midpoint(Top), Midpoint(Left), Midpoint(Bottom), Midpoint(Right)];
    case Pattern2dE =>
      assert es == [Left, Right, Top, Bottom];
      assert p.points == [Midpoint(Left), Midpoint(Right), Midpoint(Top), Midpoint(Bottom)];
  }

  /**
    A classified cell fits the interpolation's edges, except for the
    as-written edges of PATTERN2S with an odd index.
   */
  lemma ClassifiedEdgesFit(reading: AdjacentReading, dr: DiagonalReading, c: Corners, v: Values, alpha: real)
    requires reading == EdgesIntended || !OddAdjacent(ClassifyBy(dr, c, v, alpha))
    ensures EdgesFit(reading, ClassifyBy(dr, c, v, alpha))
  {
    var p := ClassifyBy(dr, c, v, alpha);
    var n := CountTrue(c);
    if n == 0 || n == 4 {
      CountZeroOrFour(dr, c, v, alpha);
    } else if n == 1 {
      CountOneIndex(dr, c, v, alpha);
      OneCornerFits(reading, p);
    } else if n == 3 {
      CountThreeIndex(dr, c, v, alpha);
      OneCornerFits(reading, p);
    } else if exists i: CornerIndex :: AdjacentAt(c, i) {
      AdjacentPairIndex(dr, c, v, alpha);
      AdjacentFits(reading, p);
    } else {
      DiagonalPairIndex(dr, c, v, alpha);
      DiagonalFits(reading, p);
    }
  }

  /** On a straddling edge of a consistent cell the samples differ and alpha lies between them. */
  lemma StraddlingEdgeCoordinate(c: Corners, v: Values, alpha: real, e: Edge, n: CornerIndex)
    requires Consistent(c, v, alpha)
    requires Straddles(c, e, n)
    ensures Divisible(v, e, n)
    ensures 0.0 <= EdgeCoordinate(v, alpha, EdgeEnds(e, n).0, EdgeEnds(e, n).1) <= EdgeLength
  {
    var (a, b) := EdgeEnds(e, n);
    assert c[a] <==> v[a] > alpha;
    assert c[b] <==> v[b] > alpha;
    EdgeCoordinateBounds(v, alpha, a, b);
  }

  /** Inside the 50x50 frame, borders included. */
  predicate InFrame(q: Point)
  {
    0.0 <= q.x <= EdgeLength && 0.0 <= q.y <= EdgeLength
  }

  /** A default point `d` was moved to `q` along d's own edge, staying inside the frame. */
  predicate MovedAlongEdge(d: Point, q: Point)
  {
    exists e: Edge :: d == Midpoint(e) && OnEdge(q, e) && InFrame(q)
  }

  /**
    For a cell whose mask agrees with its samples, the corrected
    interpolation of the as-written classification never divides by zero and
    moves every default point along its own edge to a place inside the frame.
   */
  lemma IntendedInterpolationInFrame(c: Corners, v: Values, alpha: real)
    requires Consistent(c, v, alpha)
    ensures Interpolable(EdgesIntended, Classify(c, v, alpha))
    ensures var p := Classify(c, v, alpha);
      var q := LinearInterpolationIntended(p);
      forall k :: 0 <= k < |q.points| ==> MovedAlongEdge(p.points[k], q.points[k])
  {
    InterpolationInFrame(EdgesIntended, AsWritten, c, v, alpha);
    var p := Classify(c, v, alpha);
    assert p == ClassifyBy(AsWritten, c, v, alpha);
    var q := LinearInterpolationIntended(p);
    assert q == InterpolateBy(EdgesIntended, p);
    var es := RewrittenEdges(EdgesIntended, p);
    forall k | 0 <= k < |q.points|
      ensures MovedAlongEdge(p.points[k], q.points[k])
    {
      assert p.points[k] == Midpoint(es[k]) && OnEdge(q.points[k], es[k]) && InFrame(q.points[k]);
    }
  }

  /**
    Either reading of the interpolation, applied to either reading of the
    classifier: the edges fit, no division is by zero and every point lands
    inside the frame, except for the as-written edges of PATTERN2S with an
    odd index.
   */
  lemma InterpolationInFrame(reading: AdjacentReading, dr: DiagonalReading, c: Corners, v: Values, alpha: real)
    requires Consistent(c, v, alpha)
    requires reading == EdgesIntended || !OddAdjacent(ClassifyBy(dr, c, v, alpha))
    ensures EdgesFit(reading, ClassifyBy(dr, c, v, alpha))
    ensures Interpolable(reading, ClassifyBy(dr, c, v, alpha))
    ensures var p := ClassifyBy(dr, c, v, alpha);
      var q := InterpolateBy(reading, p);
      forall k :: 0 <= k < |q.points| ==> InFrame(q.points[k]) && OnEdge(q.points[k], RewrittenEdges(reading, p)[k])
  {
    var p := ClassifyBy(dr, c, v, alpha);
    var es := RewrittenEdges(reading, p);
    ClassifiedEdgesFit(reading, dr, c, v, alpha);
    forall k | 0 <= k < |es|
      ensures Divisible(v, es[k], p.patternNumber)
      ensures 0.0 <= EdgeCoordinate(v, alpha, EdgeEnds(es[k], p.patternNumber).0, EdgeEnds(es[k], p.patternNumber).1) <= EdgeLength
    {
      StraddlingEdgeCoordinate(c, v, alpha, es[k], p.patternNumber);
    }
    var q := InterpolateBy(reading, p);
    forall k | 0 <= k < |q.points|
      ensures InFrame(q.points[k])
    {
      var e := es[k];
      assert OnEdge(q.points[k], e);
      match e
      case Top =>
      case Left =>
      case Right =>
      case Bottom =>
    }
  }

  /**
    As written, a PATTERN2S cell with an odd index takes its first point from
    the top edge of its unrotated frame, whose two corners are both marked:
    the crossing falls outside the frame whenever it is defined.
   */
  lemma OddAdjacentEdgesOutsideFrame(c: Corners, v: Values, alpha: real)
    requires Consistent(c, v, alpha)
    requires OddAdjacent(Classify(c, v, alpha))
    ensures var p := Classify(c, v, alpha);
      && RewrittenEdges(EdgesAsWritten, p) == [Top, Bottom]
      && c[p.patternNumber] && c[Next(p.patternNumber)]
      && (v[p.patternNumber] != v[Next(p.patternNumber)] ==>
            var t := EdgeCoordinate(v, alpha, p.patternNumber, Next(p.patternNumber));
            t < 0.0 || t > EdgeLength)
    ensures var p := Classify(c, v, alpha);
      && !c[Prec(p.patternNumber)] && !c[Opp(p.patternNumber)]
      && (v[Prec(p.patternNumber)] != v[Opp(p.patternNumber)] ==>
            var t := EdgeCoordinate(v, alpha, Prec(p.patternNumber), Opp(p.patternNumber));
            t <= 0.0 || t >= EdgeLength)
  {
    var p := Classify(c, v, alpha);
    var n := p.patternNumber;
    if forall i: CornerIndex :: !AdjacentAt(c, i) {
      DiagonalPairIndex(AsWritten, c, v, alpha);
    }
    AdjacentPairIndex(AsWritten, c, v, alpha);
    if v[n] != v[Next(n)] {
      MarkedEdgeOutside(v, alpha, n, Next(n));
    }
    if v[Prec(n)] != v[Opp(n)] {
      UnmarkedEdgeOutside(v, alpha, Prec(n), Opp(n));
    }
  }

  /** On an edge whose two samples are above alpha, the crossing lies strictly outside the edge. */
  lemma MarkedEdgeOutside(v: Values, alpha: real, a: CornerIndex, b: CornerIndex)
    requires v[a] > alpha && v[b] > alpha && v[a] != v[b]
    ensures EdgeCoordinate(v, alpha, a, b) < 0.0 || EdgeCoordinate(v, alpha, a, b) > EdgeLength
  {
    ScaledQuotient(EdgeLength, alpha - v[a], v[b] - v[a]);
    QuotientOutsideUnit(alpha - v[a], v[b] - v[a]);
  }

  /** On an edge whose two samples are at most alpha, the crossing lies outside the edge or on an end. */
  lemma UnmarkedEdgeOutside(v: Values, alpha: real, a: CornerIndex, b: CornerIndex)
    requires v[a] <= alpha && v[b] <= alpha && v[a] != v[b]
    ensures EdgeCoordinate(v, alpha, a, b) <= 0.0 || EdgeCoordinate(v, alpha, a, b) >= EdgeLength
  {
    ScaledQuotient(EdgeLength, alpha - v[a], v[b] - v[a]);
    QuotientOutsideOpenUnit(alpha - v[a], v[b] - v[a]);
  }

  /** A concrete cell: marked corners 1 and 2, samples 0, 10, 20, 4, alpha 5. */
  lemma OddAdjacentExample()
    ensures var c: Corners := [false, true, true, false];
      var v: Values := [0.0, 10.0, 20.0, 4.0];
      var p := Classify(c, v, 5.0);
      && Consistent(c, v, 5.0)
      && p.pattern == Pattern2S && p.patternNumber == 1
      && Interpolable(EdgesAsWritten, p)
      && LinearInterpolation(p).points == [Point(-25.0, 0.0), Point(62.5, 50.0)]
      && Interpolable(EdgesIntended, p)
      && LinearInterpolationIntended(p).points == [Point(0.0, 25.0), Point(50.0, 46.875)]
  {
    var c: Corners := [false, true, true, false];
    var v: Values := [0.0, 10.0, 20.0, 4.0];
    OddAdjacentExampleClassified();
    var p := Pattern(Pattern2S, Pattern2dP, 1, c, v, 5.0, [LeftMid, RightMid]);
    OddAdjacentExampleAsWritten(p);
    OddAdjacentExampleIntended(p);
  }

  lemma OddAdjacentExampleClassified()
    ensures Classify([false, true, true, false], [0.0, 10.0, 20.0, 4.0], 5.0)
         == Pattern(Pattern2S, Pattern2dP, 1, [false, true, true, false], [0.0, 10.0, 20.0, 4.0], 5.0, [LeftMid, RightMid])
  {
    var c: Corners := [false, true, true, false];
    assert CountTrue(c) == 2;
    assert !MatchAt(c, 0);
    assert AdjacentAt(c, 1);
  }

  lemma OddAdjacentExampleAsWritten(p: Pattern)
    requires p == Pattern(Pattern2S, Pattern2dP, 1, [false, true, true, false], [0.0, 10.0, 20.0, 4.0], 5.0, [LeftMid, RightMid])
    ensures Interpolable(EdgesAsWritten, p)
    ensures LinearInterpolation(p).points == [Point(-25.0, 0.0), Point(62.5, 50.0)]
  {
    assert RewrittenEdges(EdgesAsWritten, p) == [Top, Bottom];
    assert EdgeCoordinate(p.values, 5.0, 1, 2) == -25.0;
    assert EdgeCoordinate(p.values, 5.0, 0, 3) == 62.5;
  }

  lemma OddAdjacentExampleIntended(p: Pattern)
    requires p == Pattern(Pattern2S, Pattern2dP, 1, [false, true, true, false], [0.0, 10.0, 20.0, 4.0], 5.0, [LeftMid, RightMid])
    ensures Interpolable(EdgesIntended, p)
    ensures LinearInterpolationIntended(p).points == [Point(0.0, 25.0), Point(50.0, 46.875)]
  {
    assert RewrittenEdges(EdgesIntended, p) == [Left, Right];
    assert EdgeCoordinate(p.values, 5.0, 1, 0) == 25.0;
    assert EdgeCoordinate(p.values, 5.0, 2, 3) == 46.875;
  }
}
