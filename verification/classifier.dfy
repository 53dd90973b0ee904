/**
  The classification of a cell (the `Pattern(c, v, a)` constructor): the
  topology class from the number of marked corners, the rotation index, and
  the default contour points, which are edge midpoints of the unrotated
  50x50 frame.
 */
module Classifier {
  import opened CellTypes
  import opened Decider

  /**
    How the saddle branch is read.
    - AsWritten: exec/rep4.cpp:146 and 153 write `if (pattern2d = PATTERN2DP)`
      and `else if (pattern2d = PATTERN2DM)`, assignments.
    - Compared: both conditions compare (`==`); the decider still reads the
      samples in the cell's own corner order, as exec/rep4.cpp:143 does.
    - Corrected: both conditions compare, and the decider reads the samples in
      the order of the unrotated frame the layout is drawn in.
   */
  datatype DiagonalReading = AsWritten | Compared | Corrected

  /** Step i of the count-two scan finds corner i and its clockwise successor both marked. */
  predicate AdjacentAt(c: Corners, i: CornerIndex)
  {
    c[i] && c[Next(i)]
  }

  /** Step i of the count-two scan finds corner i marked and both its neighbours unmarked. */
  predicate DiagonalAt(c: Corners, i: CornerIndex)
  {
    c[i] && !c[Next(i)] && !c[Prec(i)]
  }

  predicate MatchAt(c: Corners, i: CornerIndex)
  {
    AdjacentAt(c, i) || DiagonalAt(c, i)
  }

  /** The first corner at or after `from` whose mark is `b`: the loops of the count-one and count-three cases. */
  function FirstIndexOf(c: Corners, b: bool, from: nat): (r: Option<CornerIndex>)
    requires from <= 4
    ensures r.Some? ==> from <= r.value && c[r.value] == b
    ensures r.Some? ==> forall j :: from <= j < r.value ==> c[j] != b
    ensures r.None? ==> forall j :: from <= j < 4 ==> c[j] != b
    decreases 4 - from
  {
    if from == 4 then None
    else if c[from] == b then Some(from)
    else FirstIndexOf(c, b, from + 1)
  }

  /** The first step at or after `from` of the count-two scan at which one of its two tests fires. */
  function ScanTwo(c: Corners, from: nat): (r: Option<CornerIndex>)
    requires from <= 4
    ensures r.Some? ==> from <= r.value && MatchAt(c, r.value)
    ensures r.Some? ==> forall j :: from <= j < r.value ==> !MatchAt(c, j)
    ensures r.None? ==> forall j :: from <= j < 4 ==> !MatchAt(c, j)
    decreases 4 - from
  {
    if from == 4 then None
    else if MatchAt(c, from) then Some(from)
    else ScanTwo(c, from + 1)
  }

  /** With exactly two marked corners some step of the scan fires, so the scan never runs off its end. */
  lemma CountTwoHasMatch(c: Corners)
    requires CountTrue(c) == 2
    ensures MatchAt(c, 0) || MatchAt(c, 1) || MatchAt(c, 2) || MatchAt(c, 3)
    ensures ScanTwo(c, 0).Some?
  {
  }

  /** The three point layouts of the saddle branch, one per decider outcome. */
  function DiagonalPoints(t: Pattern2dType): (pts: seq<Point>)
    ensures |pts| == 4
  {
    match t
    case Pattern2dP => [TopMid, RightMid, BottomMid, LeftMid]
    case Pattern2dM => [TopMid, LeftMid, BottomMid, RightMid]
    case Pattern2dE => [LeftMid, RightMid, TopMid, BottomMid]
  }

  /** Each saddle layout lists each of the four edge midpoints exactly once. */
  lemma DiagonalLayoutIsPermutation(t: Pattern2dType)
    ensures multiset(DiagonalPoints(t)) == multiset{TopMid, RightMid, BottomMid, LeftMid}
  {
  }

  /**
    The saddle branch read literally: each condition first stores its
    enumerator into `pattern2d` and then tests the stored value as an integer.
    PATTERN2DP is 0, so the first test fails; PATTERN2DM is 1, so the second
    one succeeds. The decider's result is overwritten in both.
   */
  function ResolveAsWritten(decided: Pattern2dType): (Pattern2dType, seq<Point>)
  {
    var stored := Pattern2dP;
    if Ordinal(stored) != 0 then (stored, DiagonalPoints(Pattern2dP))
    else
      var stored' := Pattern2dM;
      if Ordinal(stored') != 0 then (stored', DiagonalPoints(Pattern2dM))
      else (stored', DiagonalPoints(Pattern2dE))
  }

  /** The saddle branch read as the three-way choice its comments describe. */
  function ResolveCompared(decided: Pattern2dType): (Pattern2dType, seq<Point>)
  {
    (decided, DiagonalPoints(decided))
  }

  /** The stored sign and the layout of a saddle cell with index n. */
  function Resolve(reading: DiagonalReading, v: Values, alpha: real, n: CornerIndex): (r: (Pattern2dType, seq<Point>))
    ensures |r.1| == 4
    ensures forall k :: 0 <= k < 4 ==> IsEdgeMidpoint(r.1[k])
  {
    match reading
    case AsWritten => ResolveAsWritten(FindPattern2dType(v, alpha))
    case Compared => ResolveCompared(FindPattern2dType(v, alpha))
    case Corrected => ResolveCompared(FindPattern2dType(FrameValues(v, n), alpha))
  }

  /** The constructor, parameterised by how the saddle branch is read. */
  function ClassifyBy(reading: DiagonalReading, c: Corners, v: Values, alpha: real): (p: Pattern)
    ensures p.corners == c && p.values == v && p.alpha == alpha
    ensures p.pattern == Pattern0 <==> CountTrue(c) == 0
    ensures p.pattern == Pattern1 <==> CountTrue(c) == 1
    ensures p.pattern == Pattern3 <==> CountTrue(c) == 3
    ensures p.pattern == Pattern4 <==> CountTrue(c) == 4
    ensures p.pattern in {Pattern2S, Pattern2D} <==> CountTrue(c) == 2
    ensures |p.points| == PointCount(p.pattern)
    ensures forall k :: 0 <= k < |p.points| ==> IsEdgeMidpoint(p.points[k])
  {
    var n := CountTrue(c);
    if n == 0 then
      Pattern(Pattern0, Pattern2dE, 0, c, v, alpha, [])
    else if n == 1 then
      Pattern(Pattern1, Pattern2dE, FirstIndexOf(c, true, 0).value, c, v, alpha, [TopMid, LeftMid])
    else if n == 3 then
      Pattern(Pattern3, Pattern2dE, FirstIndexOf(c, false, 0).value, c, v, alpha, [TopMid, LeftMid])
    else if n == 4 then
      Pattern(Pattern4, Pattern2dE, 0, c, v, alpha, [])
    else
      CountTwoHasMatch(c);
      var i := ScanTwo(c, 0).value;
      if AdjacentAt(c, i) then
        Pattern(Pattern2S, Pattern2dP, i, c, v, alpha, [LeftMid, RightMid])
      else
        var r := Resolve(reading, v, alpha, i);
        Pattern(Pattern2D, r.0, i, c, v, alpha, r.1)
  }

  /** The constructor as exec/rep4.cpp writes it. */
  function Classify(c: Corners, v: Values, alpha: real): Pattern
  {
    ClassifyBy(AsWritten, c, v, alpha)
  }

  /** No marked corner, or all four: a single configuration and no contour. */
  lemma CountZeroOrFour(reading: DiagonalReading, c: Corners, v: Values, alpha: real)
    requires CountTrue(c) == 0 || CountTrue(c) == 4
    ensures var p := ClassifyBy(reading, c, v, alpha);
      && p.pattern == (if CountTrue(c) == 0 then Pattern0 else Pattern4)
      && p.pattern2d == Pattern2dE
      && p.patternNumber == 0
      && p.points == []
  {
  }

  /** One marked corner: the rotation index is that corner. */
  lemma CountOneIndex(reading: DiagonalReading, c: Corners, v: Values, alpha: real)
    requires CountTrue(c) == 1
    ensures var p := ClassifyBy(reading, c, v, alpha);
      && p.pattern == Pattern1
      && p.pattern2d == Pattern2dE
      && c[p.patternNumber]
      && (forall k :: 0 <= k < 4 && k != p.patternNumber ==> !c[k])
      && p.points == [TopMid, LeftMid]
  {
  }

  /** Three marked corners: the rotation index is the unmarked corner, and the points are those of one marked corner. */
  lemma CountThreeIndex(reading: DiagonalReading, c: Corners, v: Values, alpha: real)
    requires CountTrue(c) == 3
    ensures var p := ClassifyBy(reading, c, v, alpha);
      && p.pattern == Pattern3
      && p.pattern2d == Pattern2dE
      && !c[p.patternNumber]
      && (forall k :: 0 <= k < 4 && k != p.patternNumber ==> c[k])
      && p.points == [TopMid, LeftMid]
  {
  }

  /** Two marked neighbours: PATTERN2S, indexed by the unique corner whose successor is also marked. */
  lemma AdjacentPairIndex(reading: DiagonalReading, c: Corners, v: Values, alpha: real)
    requires CountTrue(c) == 2
    requires exists i: CornerIndex :: AdjacentAt(c, i)
    ensures var p := ClassifyBy(reading, c, v, alpha);
      && p.pattern == Pattern2S
      && p.pattern2d == Pattern2dP
      && AdjacentAt(c, p.patternNumber)
      && (forall i: CornerIndex :: AdjacentAt(c, i) ==> i == p.patternNumber)
      && p.points == [LeftMid, RightMid]
  {
    var p := ClassifyBy(reading, c, v, alpha);
    CountTwoHasMatch(c);
    var k := ScanTwo(c, 0).value;
    if !AdjacentAt(c, k) {
      assert DiagonalAt(c, k);
      var i: CornerIndex :| AdjacentAt(c, i);
      assert false;
    }
  }

  /** Two marked opposite corners: PATTERN2D, and the scan always stops at corner 0 or 1. */
  lemma DiagonalPairIndex(reading: DiagonalReading, c: Corners, v: Values, alpha: real)
    requires CountTrue(c) == 2
    requires forall i: CornerIndex :: !AdjacentAt(c, i)
    ensures var p := ClassifyBy(reading, c, v, alpha);
      && p.pattern == Pattern2D
      && p.patternNumber in {0, 1}
      && c[p.patternNumber] && c[Opp(p.patternNumber)]
      && !c[Next(p.patternNumber)] && !c[Prec(p.patternNumber)]
      && p.points == DiagonalPoints(p.pattern2d)
  {
    assert !AdjacentAt(c, 0) && !AdjacentAt(c, 1) && !AdjacentAt(c, 2) && !AdjacentAt(c, 3);
  }

  /** The literal saddle branch: every PATTERN2D cell ends negative with the top, left, bottom, right layout. */
  lemma AsWrittenDiagonalAlwaysNegative(c: Corners, v: Values, alpha: real)
    requires Classify(c, v, alpha).pattern == Pattern2D
    ensures Classify(c, v, alpha).pattern2d == Pattern2dM
    ensures Classify(c, v, alpha).points == [TopMid, LeftMid, BottomMid, RightMid]
  {
  }

  /** A saddle cell whose determinant is positive is still stored as negative. */
  lemma AsWrittenIgnoresDecider()
    ensures var c: Corners := [true, false, true, false];
      var v: Values := [30.0, 0.0, 30.0, 0.0];
      && Consistent(c, v, 10.0)
      && Determinant(v, 10.0) == 300.0
      && FindPattern2dType(v, 10.0) == Pattern2dP
      && Classify(c, v, 10.0).pattern2d == Pattern2dM
  {
    var c: Corners := [true, false, true, false];
    var v: Values := [30.0, 0.0, 30.0, 0.0];
    assert CountTrue(c) == 2;
    assert DiagonalAt(c, 0);
  }

  /** The readings differ only on saddle cells. */
  lemma ReadingsAgreeOffDiagonal(r1: DiagonalReading, r2: DiagonalReading, c: Corners, v: Values, alpha: real)
    requires ClassifyBy(r1, c, v, alpha).pattern != Pattern2D
    ensures ClassifyBy(r1, c, v, alpha) == ClassifyBy(r2, c, v, alpha)
  {
  }

  /**
    The frame corner a segment between the midpoints of two adjacent edges
    cuts off, as a frame position; None for the midpoints of opposite edges.
   */
  function CutCorner(a: Point, b: Point): Option<CornerIndex>
  {
    if (a == LeftMid && b == TopMid) || (a == TopMid && b == LeftMid) then Some(0)
    else if (a == TopMid && b == RightMid) || (a == RightMid && b == TopMid) then Some(1)
    else if (a == RightMid && b == BottomMid) || (a == BottomMid && b == RightMid) then Some(2)
    else if (a == BottomMid && b == LeftMid) || (a == LeftMid && b == BottomMid) then Some(3)
    else None
  }

  /**
    A four-point layout draws two segments, points 0-1 and points 2-3. It
    isolates the corners marked `marked` when each segment cuts off a
    different corner of the frame of index n and both carry that mark.
   */
  predicate Isolates(pts: seq<Point>, n: CornerIndex, c: Corners, marked: bool)
  {
    && |pts| == 4
    && CutCorner(pts[0], pts[1]).Some?
    && CutCorner(pts[2], pts[3]).Some?
    && CutCorner(pts[0], pts[1]) != CutCorner(pts[2], pts[3])
    && c[FrameCorner(n, CutCorner(pts[0], pts[1]).value)] == marked
    && c[FrameCorner(n, CutCorner(pts[2], pts[3]).value)] == marked
  }

  /**
    In the frame of a saddle cell (marked corners at top-left and
    bottom-right) the P layout cuts off the two unmarked corners, joining the
    marked ones; the M layout cuts off the two marked corners; the E layout
    isolates neither.
   */
  lemma DiagonalLayoutCuts(t: Pattern2dType, n: CornerIndex, c: Corners)
    requires DiagonalAt(c, n) && c[Opp(n)]
    ensures Isolates(DiagonalPoints(t), n, c, false) <==> t == Pattern2dP
    ensures Isolates(DiagonalPoints(t), n, c, true) <==> t == Pattern2dM
  {
    match t
    case Pattern2dP =>
      assert CutCorner(TopMid, RightMid) == Some(1) && CutCorner(BottomMid, LeftMid) == Some(3);
    case Pattern2dM =>
      assert CutCorner(TopMid, LeftMid) == Some(0) && CutCorner(BottomMid, RightMid) == Some(2);
    case Pattern2dE =>
      assert CutCorner(LeftMid, RightMid) == None;
  }

  /** The facts about a classified saddle cell that the layout lemmas start from. */
  lemma SaddleCell(reading: DiagonalReading, c: Corners, v: Values, alpha: real)
    requires ClassifyBy(reading, c, v, alpha).pattern == Pattern2D
    ensures var p := ClassifyBy(reading, c, v, alpha);
      && p.patternNumber in {0, 1}
      && DiagonalAt(c, p.patternNumber) && c[Opp(p.patternNumber)]
      && p.points == DiagonalPoints(p.pattern2d)
  {
    if exists i: CornerIndex :: AdjacentAt(c, i) {
      AdjacentPairIndex(reading, c, v, alpha);
    }
    DiagonalPairIndex(reading, c, v, alpha);
  }

  /**
    With comparisons in the saddle branch the layout follows the decider:
    it joins the marked corners exactly when D > 0 and separates them
    exactly when D < 0.
   */
  lemma ComparedFollowsDecider(c: Corners, v: Values, alpha: real)
    requires ClassifyBy(Compared, c, v, alpha).pattern == Pattern2D
    ensures var p := ClassifyBy(Compared, c, v, alpha);
      && (Isolates(p.points, p.patternNumber, c, false) <==> Determinant(v, alpha) > 0.0)
      && (Isolates(p.points, p.patternNumber, c, true) <==> Determinant(v, alpha) < 0.0)
  {
    var p := ClassifyBy(Compared, c, v, alpha);
    SaddleCell(Compared, c, v, alpha);
    assert p.pattern2d == FindPattern2dType(v, alpha);
    DiagonalLayoutCuts(p.pattern2d, p.patternNumber, c);
  }

  /**
    With comparisons but the decider reading the samples in the cell's own
    order, a saddle cell with index 0 gets the layout the bilinear
    interpolant calls for, and one with index 1 gets the opposite: its
    marked corners are joined exactly when the saddle value is below alpha.
   */
  lemma ComparedInvertsOddIndex(c: Corners, v: Values, alpha: real)
    requires Consistent(c, v, alpha)
    requires ClassifyBy(Compared, c, v, alpha).pattern == Pattern2D
    ensures DiagonalImbalance(v) != 0.0
    ensures var p := ClassifyBy(Compared, c, v, alpha);
      && (p.patternNumber == 0 ==> (Isolates(p.points, 0, c, false) <==> SaddleValue(v) > alpha))
      && (p.patternNumber == 1 ==> (Isolates(p.points, 1, c, false) <==> SaddleValue(v) < alpha))
      && (p.patternNumber == 1 ==> (Isolates(p.points, 1, c, true) <==> SaddleValue(v) > alpha))
  {
    var p := ClassifyBy(Compared, c, v, alpha);
    SaddleCell(Compared, c, v, alpha);
    ComparedFollowsDecider(c, v, alpha);
    if p.patternNumber == 0 {
      DeciderReportsSaddleSide(v, alpha);
    } else {
      DeciderInvertsOtherDiagonal(v, alpha);
    }
  }

  /**
    Reading a saddle cell in its frame keeps its saddle value: for index 1
    both the diagonal products and the imbalance change sign.
   */
  lemma FrameSaddleValue(v: Values, n: CornerIndex)
    requires n in {0, 1}
    requires DiagonalImbalance(v) != 0.0
    ensures DiagonalImbalance(FrameValues(v, n)) != 0.0
    ensures SaddleValue(FrameValues(v, n)) == SaddleValue(v)
  {
    var w := FrameValues(v, n);
    if n == 1 {
      assert DiagonalImbalance(w) == -DiagonalImbalance(v);
      assert w[0] * w[2] - w[1] * w[3] == -(v[0] * v[2] - v[1] * v[3]);
    }
  }

  /**
    With comparisons and the decider read in the frame the layout is drawn
    in, every saddle cell whose mask agrees with its samples gets the layout
    the bilinear interpolant calls for. The marked corners are joined (the
    unmarked ones cut off) exactly when the saddle value is above alpha, and
    cut off exactly when it is below.
   */
  lemma CorrectedLayoutMatchesSaddle(c: Corners, v: Values, alpha: real)
    requires Consistent(c, v, alpha)
    requires ClassifyBy(Corrected, c, v, alpha).pattern == Pattern2D
    ensures DiagonalImbalance(v) != 0.0
    ensures var p := ClassifyBy(Corrected, c, v, alpha);
      && (Isolates(p.points, p.patternNumber, c, false) <==> SaddleValue(v) > alpha)
      && (Isolates(p.points, p.patternNumber, c, true) <==> SaddleValue(v) < alpha)
  {
    var p := ClassifyBy(Corrected, c, v, alpha);
    var n := p.patternNumber;
    SaddleCell(Corrected, c, v, alpha);
    var w := FrameValues(v, n);
    assert w[0] > alpha && w[2] > alpha && w[1] <= alpha && w[3] <= alpha;
    DeciderReportsSaddleSide(w, alpha);
    assert DiagonalImbalance(v) != 0.0 by {
      if n == 1 {
        assert DiagonalImbalance(v) == -DiagonalImbalance(w);
      }
    }
    FrameSaddleValue(v, n);
    assert p.pattern2d == FindPattern2dType(w, alpha);
    DiagonalLayoutCuts(p.pattern2d, n, c);
  }

  /** A mask with no two marked neighbours keeps that shape when shifted. */
  lemma ShiftKeepsNonAdjacent(c: Corners)
    requires forall i: CornerIndex :: !AdjacentAt(c, i)
    ensures forall i: CornerIndex :: !AdjacentAt(Shift(c), i)
  {
    forall i: CornerIndex ensures !AdjacentAt(Shift(c), i) {
      assert !AdjacentAt(c, Prec(i));
    }
  }

  /** Shifting the cell one corner clockwise keeps the topology class. */
  lemma ShiftKeepsType(reading: DiagonalReading, c: Corners, v: Values, alpha: real)
    ensures ClassifyBy(reading, Shift(c), Shift(v), alpha).pattern
         == ClassifyBy(reading, c, v, alpha).pattern
  {
    var s := Shift(c);
    assert CountTrue(s) == CountTrue(c);
    if CountTrue(c) == 2 {
      if exists i: CornerIndex :: AdjacentAt(c, i) {
        var i: CornerIndex :| AdjacentAt(c, i);
        assert AdjacentAt(s, Next(i));
        AdjacentPairIndex(reading, c, v, alpha);
        AdjacentPairIndex(reading, s, Shift(v), alpha);
      } else {
        ShiftKeepsNonAdjacent(c);
        DiagonalPairIndex(reading, c, v, alpha);
        DiagonalPairIndex(reading, s, Shift(v), alpha);
      }
    }
  }

  /**
    For one marked corner, one unmarked corner and two marked neighbours the
    index names a corner, so it moves with the shift; a saddle cell only
    ever has index 0 or 1, so the shift toggles it instead.
   */
  lemma ShiftAdvancesIndex(reading: DiagonalReading, c: Corners, v: Values, alpha: real)
    ensures var p := ClassifyBy(reading, c, v, alpha);
      var q := ClassifyBy(reading, Shift(c), Shift(v), alpha);
      && (p.pattern in {Pattern1, Pattern3, Pattern2S} ==> q.patternNumber == Next(p.patternNumber))
      && (p.pattern in {Pattern0, Pattern4} ==> q.patternNumber == p.patternNumber == 0)
      && (p.pattern == Pattern2D ==> q.patternNumber == 1 - p.patternNumber)
  {
    var p := ClassifyBy(reading, c, v, alpha);
    var s := Shift(c);
    var w := Shift(v);
    var q := ClassifyBy(reading, s, w, alpha);
    ShiftKeepsType(reading, c, v, alpha);
    assert CountTrue(s) == CountTrue(c);
    match p.pattern
    case Pattern0 =>
    case Pattern4 =>
    case Pattern1 =>
      CountOneIndex(reading, c, v, alpha);
      CountOneIndex(reading, s, w, alpha);
      assert s[Next(p.patternNumber)];
    case Pattern3 =>
      CountThreeIndex(reading, c, v, alpha);
      CountThreeIndex(reading, s, w, alpha);
      assert !s[Next(p.patternNumber)];
    case Pattern2S =>
      if forall i: CornerIndex :: !AdjacentAt(c, i) {
        DiagonalPairIndex(reading, c, v, alpha);
      }
      AdjacentPairIndex(reading, c, v, alpha);
      assert AdjacentAt(s, Next(p.patternNumber));
      AdjacentPairIndex(reading, s, w, alpha);
    case Pattern2D =>
      if exists i: CornerIndex :: AdjacentAt(c, i) {
        AdjacentPairIndex(reading, c, v, alpha);
      }
      DiagonalPairIndex(reading, c, v, alpha);
      ShiftKeepsNonAdjacent(c);
      DiagonalPairIndex(reading, s, w, alpha);
  }
}
