/**
  The driver's part of the classifier: thresholding a sampled scalar field
  into a mask, cutting it into 2x2 cells with corners listed clockwise from
  the top-left one, classifying every cell, and interpolating every cell.
 */
module Field {
  import opened CellTypes
  import opened Decider
  import opened Classifier
  import opened Interpolation
  import opened Description

  /** A rectangular field of samples with at least one cell. */
  predicate IsGrid(g: seq<seq<real>>)
  {
    && |g| >= 2
    && |g[0]| >= 2
    && forall r :: 0 <= r < |g| ==> |g[r]| == |g[0]|
  }

  /** The mask of the field: a sample is marked exactly when it is strictly above alpha. */
  function Mask(g: seq<seq<real>>, alpha: real): (m: seq<seq<bool>>)
    ensures |m| == |g|
    ensures forall r :: 0 <= r < |g| ==> |m[r]| == |g[r]|
    ensures forall r, k :: 0 <= r < |g| && 0 <= k < |g[r]| ==> (m[r][k] <==> g[r][k] > alpha)
  {
    seq(|g|, r requires 0 <= r < |g| => seq(|g[r]|, k requires 0 <= k < |g[r]| => g[r][k] > alpha))
  }

  /** The four entries of the cell whose top-left entry is (i, j), clockwise from the top-left one. */
  function CellOf<T>(m: seq<seq<T>>, i: nat, j: nat): (s: seq<T>)
    requires i + 1 < |m| && j + 1 < |m[i]| && j + 1 < |m[i + 1]|
    ensures |s| == 4
  {
    [m[i][j], m[i][j + 1], m[i + 1][j + 1], m[i + 1][j]]
  }

  function CellCorners(g: seq<seq<real>>, alpha: real, i: nat, j: nat): Corners
    requires IsGrid(g) && i + 1 < |g| && j + 1 < |g[0]|
  {
    CellOf(Mask(g, alpha), i, j)
  }

  function CellValues(g: seq<seq<real>>, i: nat, j: nat): Values
    requires IsGrid(g) && i + 1 < |g| && j + 1 < |g[0]|
  {
    CellOf(g, i, j)
  }

  /** The mask of every cell agrees with the cell's samples: the threshold is strict. */
  lemma CellMaskConsistent(g: seq<seq<real>>, alpha: real, i: nat, j: nat)
    requires IsGrid(g) && i + 1 < |g| && j + 1 < |g[0]|
    ensures Consistent(CellCorners(g, alpha, i, j), CellValues(g, i, j), alpha)
    ensures CellValues(g, i, j) == [g[i][j], g[i][j + 1], g[i + 1][j + 1], g[i + 1][j]]
  {
  }

  /** The pattern the driver builds for cell (i, j); `dr` says how the saddle branch is read. */
  function CellPattern(g: seq<seq<real>>, alpha: real, dr: DiagonalReading, i: nat, j: nat): (p: Pattern)
    requires IsGrid(g) && i + 1 < |g| && j + 1 < |g[0]|
    ensures p == ClassifyBy(dr, p.corners, p.values, alpha)
    ensures p.values == [g[i][j], g[i][j + 1], g[i + 1][j + 1], g[i + 1][j]]
    ensures Consistent(p.corners, p.values, alpha)
  {
    CellMaskConsistent(g, alpha, i, j);
    ClassifyBy(dr, CellCorners(g, alpha, i, j), CellValues(g, i, j), alpha)
  }

  /** The samples and marks the driver reads for cell (i, j) classify to that cell's pattern. */
  lemma CellExtraction(g: seq<seq<real>>, m: seq<seq<bool>>, alpha: real, dr: DiagonalReading, i: nat, j: nat)
    requires IsGrid(g) && i + 1 < |g| && j + 1 < |g[0]|
    requires m == Mask(g, alpha)
    ensures ClassifyBy(dr, [m[i][j], m[i][j + 1], m[i + 1][j + 1], m[i + 1][j]],
                           [g[i][j], g[i][j + 1], g[i + 1][j + 1], g[i + 1][j]], alpha)
         == CellPattern(g, alpha, dr, i, j)
  {
    assert CellCorners(g, alpha, i, j) == [m[i][j], m[i][j + 1], m[i + 1][j + 1], m[i + 1][j]];
  }

  /** The inner loop of the driver: the cells of row i, left to right. */
  method ClassifyRow(g: seq<seq<real>>, m: seq<seq<bool>>, alpha: real, dr: DiagonalReading, i: nat)
    returns (row: seq<Pattern>)
    requires IsGrid(g) && i + 1 < |g|
    requires m == Mask(g, alpha)
    ensures |row| == |g[0]| - 1
    ensures forall k :: 0 <= k < |row| ==> row[k] == CellPattern(g, alpha, dr, i, k)
  {
    row := [];
    var j := 0;
    while j < |g[0]| - 1
      invariant 0 <= j <= |g[0]| - 1
      invariant |row| == j
      invariant forall k {:trigger row[k]} :: 0 <= k < j ==> row[k] == CellPattern(g, alpha, dr, i, k)
    {
      var corners: Corners := [m[i][j], m[i][j + 1], m[i + 1][j + 1], m[i + 1][j]];
      var values: Values := [g[i][j], g[i][j + 1], g[i + 1][j + 1], g[i + 1][j]];
      CellExtraction(g, m, alpha, dr, i, j);
      row := row + [ClassifyBy(dr, corners, values, alpha)];
      j := j + 1;
    }
  }

  /** The driver's classification loop: one pattern per cell, rows of the field minus one by columns minus one. */
  method ClassifyGrid(g: seq<seq<real>>, alpha: real, dr: DiagonalReading) returns (ps: seq<seq<Pattern>>)
    requires IsGrid(g)
    ensures |ps| == |g| - 1
    ensures forall i :: 0 <= i < |ps| ==> |ps[i]| == |g[0]| - 1
    ensures forall i, j :: 0 <= i < |ps| && 0 <= j < |ps[i]| ==> ps[i][j] == CellPattern(g, alpha, dr, i, j)
  {
    var m := Mask(g, alpha);
    ps := [];
    var i := 0;
    while i < |g| - 1
      invariant 0 <= i <= |g| - 1
      invariant |ps| == i
      invariant forall r :: 0 <= r < i ==> |ps[r]| == |g[0]| - 1
      invariant forall r, k :: 0 <= r < i && 0 <= k < |ps[r]| ==> ps[r][k] == CellPattern(g, alpha, dr, r, k)
    {
      var row := ClassifyRow(g, m, alpha, dr, i);
      ps := ps + [row];
      i := i + 1;
    }
  }

  /** The inner interpolation loop: every cell of one row. */
  method InterpolateRow(row: seq<Pattern>, reading: AdjacentReading) returns (out: seq<Pattern>)
    requires forall k :: 0 <= k < |row| ==> Interpolable(reading, row[k])
    ensures |out| == |row|
    ensures forall k :: 0 <= k < |row| ==> out[k] == InterpolateBy(reading, row[k])
  {
    out := seq(|row|, k requires 0 <= k < |row| => InterpolateBy(reading, row[k]));
  }

  method InterpolateGrid(ps: seq<seq<Pattern>>, reading: AdjacentReading) returns (qs: seq<seq<Pattern>>)
    requires forall i, j :: 0 <= i < |ps| && 0 <= j < |ps[i]| ==> Interpolable(reading, ps[i][j])
    ensures |qs| == |ps|
    ensures forall i :: 0 <= i < |ps| ==> |qs[i]| == |ps[i]|
    ensures forall i, j :: 0 <= i < |ps| && 0 <= j < |ps[i]| ==>
      && qs[i][j] == InterpolateBy(reading, ps[i][j])
      && qs[i][j] == ps[i][j].(points := qs[i][j].points)
  {
    qs := [];
    var i := 0;
    while i < |ps|
      invariant 0 <= i <= |ps|
      invariant |qs| == i
      invariant forall r :: 0 <= r < i ==> |qs[r]| == |ps[r]|
      invariant forall r, k :: 0 <= r < i && 0 <= k < |ps[r]| ==> qs[r][k] == InterpolateBy(reading, ps[r][k])
    {
      var row := InterpolateRow(ps[i], reading);
      qs := qs + [row];
      i := i + 1;
    }
  }

  /**
    Every cell of a field can be interpolated, with every point inside its
    frame: with the corrected edge choice always, as written as long as no
    cell is PATTERN2S with an odd index.
   */
  lemma GridInterpolable(g: seq<seq<real>>, alpha: real, dr: DiagonalReading, reading: AdjacentReading)
    requires IsGrid(g)
    requires reading == EdgesIntended
      || forall i, j :: 0 <= i < |g| - 1 && 0 <= j < |g[0]| - 1 ==> !OddAdjacent(CellPattern(g, alpha, dr, i, j))
    ensures forall i, j :: 0 <= i < |g| - 1 && 0 <= j < |g[0]| - 1 ==>
      && Interpolable(reading, CellPattern(g, alpha, dr, i, j))
      && forall k :: 0 <= k < |CellPattern(g, alpha, dr, i, j).points| ==>
           InFrame(InterpolateBy(reading, CellPattern(g, alpha, dr, i, j)).points[k])
  {
    forall i, j | 0 <= i < |g| - 1 && 0 <= j < |g[0]| - 1
      ensures Interpolable(reading, CellPattern(g, alpha, dr, i, j))
      ensures forall k :: 0 <= k < |CellPattern(g, alpha, dr, i, j).points| ==>
           InFrame(InterpolateBy(reading, CellPattern(g, alpha, dr, i, j)).points[k])
    {
      var p := CellPattern(g, alpha, dr, i, j);
      InterpolationInFrame(reading, dr, p.corners, p.values, alpha);
    }
  }

  /** The 4x4 field the driver classifies, with its iso-value. */
  const DemoField: seq<seq<real>> := [
    [12.0, 14.0, 25.0, 20.0],
    [20.0, 16.0, 20.0, 18.0],
    [16.0, 22.0, 15.0, 17.0],
    [24.0, 20.0, 13.0, 15.0]]
  const DemoAlpha: real := 21.0

  lemma DemoIsGrid()
    ensures IsGrid(DemoField)
  {
  }

  /**
    The demonstration field: its one saddle cell, at row 2 and column 0, has
    a positive determinant but is reported negative, and its description
    line reads "2D D<0 Configuration = 1".
   */
  lemma DemoSaddleCell()
    ensures IsGrid(DemoField)
    ensures var p := CellPattern(DemoField, DemoAlpha, AsWritten, 2, 0);
      && p.corners == [false, true, false, true]
      && p.pattern == Pattern2D
      && p.patternNumber == 1
      && Determinant(p.values, DemoAlpha) == 2.0
      && FindPattern2dType(p.values, DemoAlpha) == Pattern2dP
      && p.pattern2d == Pattern2dM
      && ParseDescription(ToString(p)) == Some(Summary(Pattern2D, Some(Pattern2dM), 1))
  {
    DemoIsGrid();
    var p := CellPattern(DemoField, DemoAlpha, AsWritten, 2, 0);
    var c := p.corners;
    var v := p.values;
    assert v == [DemoField[2][0], DemoField[2][1], DemoField[3][1], DemoField[3][0]];
    assert v == [16.0, 22.0, 20.0, 24.0];
    DemoSaddleMask(c);
    assert p == Classify(c, v, DemoAlpha);
    DemoSaddlePattern(c);
    DemoSaddleDescription(p);
    DemoSaddleDecider();
  }

  /**
    The saddle value of demo cell (2, 0) is 20.8, below alpha, so the
    bilinear interpolant separates its two marked corners. The literal
    constructor's M layout does that; the comparing branch with the decider
    on the cell's own order stores P and joins them; the decider read in the
    cell's frame stores M again.
   */
  lemma DemoSaddleReadings()
    ensures IsGrid(DemoField)
    ensures DiagonalImbalance(CellValues(DemoField, 2, 0)) != 0.0
    ensures SaddleValue(CellValues(DemoField, 2, 0)) == 20.8 < DemoAlpha
    ensures var p := CellPattern(DemoField, DemoAlpha, AsWritten, 2, 0);
      p.pattern2d == Pattern2dM && Isolates(p.points, p.patternNumber, p.corners, true)
    ensures var p := CellPattern(DemoField, DemoAlpha, Compared, 2, 0);
      p.pattern2d == Pattern2dP && Isolates(p.points, p.patternNumber, p.corners, false)
    ensures var p := CellPattern(DemoField, DemoAlpha, Corrected, 2, 0);
      p.pattern2d == Pattern2dM && Isolates(p.points, p.patternNumber, p.corners, true)
  {
    DemoSaddleSamples(AsWritten);
    DemoSaddleSamples(Compared);
    DemoSaddleSamples(Corrected);
    var c: Corners := [false, true, false, true];
    DemoSaddleLayout(AsWritten, c);
    DemoSaddleLayout(Compared, c);
    DemoSaddleLayout(Corrected, c);
    DiagonalLayoutCuts(Pattern2dP, 1, c);
    DiagonalLayoutCuts(Pattern2dM, 1, c);
  }

  /** Demo cell (2, 0) has samples 16, 22, 20, 24 and marks on corners 1 and 3. */
  lemma DemoSaddleSamples(dr: DiagonalReading)
    ensures IsGrid(DemoField)
    ensures CellValues(DemoField, 2, 0) == [16.0, 22.0, 20.0, 24.0]
    ensures CellPattern(DemoField, DemoAlpha, dr, 2, 0)
         == ClassifyBy(dr, [false, true, false, true], [16.0, 22.0, 20.0, 24.0], DemoAlpha)
  {
    DemoIsGrid();
    CellMaskConsistent(DemoField, DemoAlpha, 2, 0);
    assert CellValues(DemoField, 2, 0) == [16.0, 22.0, 20.0, 24.0];
    DemoSaddleMask(CellCorners(DemoField, DemoAlpha, 2, 0));
  }

  /** The three readings of the saddle branch on the samples of demo cell (2, 0). */
  lemma DemoSaddleLayout(dr: DiagonalReading, c: Corners)
    requires c == [false, true, false, true]
    ensures DiagonalImbalance([16.0, 22.0, 20.0, 24.0]) != 0.0
    ensures SaddleValue([16.0, 22.0, 20.0, 24.0]) == 20.8
    ensures var p := ClassifyBy(dr, c, [16.0, 22.0, 20.0, 24.0], DemoAlpha);
      && p.patternNumber == 1
      && p.corners == c
      && p.pattern2d == (if dr == Compared then Pattern2dP else Pattern2dM)
      && p.points == DiagonalPoints(p.pattern2d)
  {
    var v: Values := [16.0, 22.0, 20.0, 24.0];
    assert forall i: CornerIndex :: !AdjacentAt(c, i);
    DiagonalPairIndex(dr, c, v, DemoAlpha);
    DemoSaddleDecider();
    match dr
    case AsWritten =>
      AsWrittenDiagonalAlwaysNegative(c, v, DemoAlpha);
    case Compared =>
    case Corrected =>
      assert FrameValues(v, 1) == [22.0, 20.0, 24.0, 16.0];
  }

  lemma DemoSaddleDecider()
    ensures Determinant([16.0, 22.0, 20.0, 24.0], DemoAlpha) == 2.0
    ensures FindPattern2dType([16.0, 22.0, 20.0, 24.0], DemoAlpha) == Pattern2dP
    ensures Determinant([22.0, 20.0, 24.0, 16.0], DemoAlpha) == -2.0
    ensures FindPattern2dType([22.0, 20.0, 24.0, 16.0], DemoAlpha) == Pattern2dM
  {
  }

  /** The strict threshold marks corners 1 and 3 of that cell. */
  lemma DemoSaddleMask(c: Corners)
    requires Consistent(c, [16.0, 22.0, 20.0, 24.0], DemoAlpha)
    ensures c == [false, true, false, true]
  {
    assert c[0] == false && c[1] == true && c[2] == false && c[3] == true;
  }

  lemma DemoSaddlePattern(c: Corners)
    requires c == [false, true, false, true]
    ensures var p := Classify(c, [16.0, 22.0, 20.0, 24.0], DemoAlpha);
      && p.pattern == Pattern2D
      && p.patternNumber == 1
      && p.pattern2d == Pattern2dM
  {
    var v: Values := [16.0, 22.0, 20.0, 24.0];
    assert forall i: CornerIndex :: !AdjacentAt(c, i);
    DiagonalPairIndex(AsWritten, c, v, DemoAlpha);
    AsWrittenDiagonalAlwaysNegative(c, v, DemoAlpha);
  }

  lemma DemoSaddleDescription(p: Pattern)
    requires p.pattern == Pattern2D && p.patternNumber == 1 && p.pattern2d == Pattern2dM
    ensures ParseDescription(ToString(p)) == Some(Summary(Pattern2D, Some(Pattern2dM), 1))
  {
    DescriptionRoundTrip(p);
  }
}
