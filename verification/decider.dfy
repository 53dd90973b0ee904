/**
  The asymptotic decider of the saddle (two diagonal corners) case: the sign
  of a determinant built from the four samples and the iso-value.
 */
module Decider {
  import opened CellTypes

  /** The determinant D, with c0..c3 named as in findPattern2dType of exec/rep4.cpp. */
  function Determinant(v: Values, alpha: real): real
  {
    var c0 := v[3] + v[1] - v[0] - v[2];
    var c1 := v[0] - v[3];
    var c2 := v[2] - v[3];
    var c3 := v[3];
    c1 * c2 - c0 * c3 + c0 * alpha
  }

  /** The sign class of the determinant. */
  function FindPattern2dType(v: Values, alpha: real): (r: Pattern2dType)
    ensures r == Pattern2dP <==> Determinant(v, alpha) > 0.0
    ensures r == Pattern2dM <==> Determinant(v, alpha) < 0.0
    ensures r == Pattern2dE <==> Determinant(v, alpha) == 0.0
  {
    var d := Determinant(v, alpha);
    if d > 0.0 then Pattern2dP
    else if d < 0.0 then Pattern2dM
    else Pattern2dE
  }

  /** The swap of positive and negative that a quarter turn of the cell induces. */
  function Flip(t: Pattern2dType): Pattern2dType
  {
    match t
    case Pattern2dP => Pattern2dM
    case Pattern2dM => Pattern2dP
    case Pattern2dE => Pattern2dE
  }

  /** The sum of the diagonal pair 0,2 minus the sum of the diagonal pair 1,3. */
  function DiagonalImbalance(v: Values): real
  {
    v[0] + v[2] - v[1] - v[3]
  }

  /**
    The value of the bilinear interpolant of the cell at its saddle point,
    (v0*v2 - v1*v3) / (v0 + v2 - v1 - v3); the saddle exists when the
    denominator is non-zero.
   */
  function SaddleValue(v: Values): real
    requires DiagonalImbalance(v) != 0.0
  {
    (v[0] * v[2] - v[1] * v[3]) / DiagonalImbalance(v)
  }

  /** D is the difference of the two diagonal products, corrected by alpha times the imbalance. */
  lemma DeterminantExpanded(v: Values, alpha: real)
    ensures Determinant(v, alpha) == v[0] * v[2] - v[1] * v[3] - alpha * DiagonalImbalance(v)
  {
    var c0 := v[3] + v[1] - v[0] - v[2];
    assert c0 * alpha == -(alpha * DiagonalImbalance(v));
    assert (v[0] - v[3]) * (v[2] - v[3]) - c0 * v[3] == v[0] * v[2] - v[1] * v[3];
  }

  /**
    Turning the cell a quarter turn swaps the roles of the two diagonals, so
    the determinant changes sign and the decider swaps P and M.
   */
  lemma ShiftNegatesDeterminant(v: Values, alpha: real)
    ensures Determinant(Shift(v), alpha) == -Determinant(v, alpha)
    ensures FindPattern2dType(Shift(v), alpha) == Flip(FindPattern2dType(v, alpha))
  {
    var s := Shift(v);
    DeterminantExpanded(v, alpha);
    DeterminantExpanded(s, alpha);
    assert DiagonalImbalance(s) == -DiagonalImbalance(v);
    assert s[0] * s[2] - s[1] * s[3] == -(v[0] * v[2] - v[1] * v[3]);
  }

  /**
    The determinant is the imbalance times the distance of the saddle value
    above alpha. When corners 0 and 2 are the ones above alpha the imbalance
    is positive, so P means the saddle lies above alpha, M below it.
   */
  lemma DeterminantIsSaddleOffset(v: Values, alpha: real)
    requires DiagonalImbalance(v) != 0.0
    ensures Determinant(v, alpha) == DiagonalImbalance(v) * (SaddleValue(v) - alpha)
  {
    DeterminantExpanded(v, alpha);
    var e := DiagonalImbalance(v);
    assert SaddleValue(v) * e == v[0] * v[2] - v[1] * v[3];
  }

  lemma DeciderReportsSaddleSide(v: Values, alpha: real)
    requires v[0] > alpha && v[2] > alpha && v[1] <= alpha && v[3] <= alpha
    ensures DiagonalImbalance(v) > 0.0
    ensures FindPattern2dType(v, alpha) == Pattern2dP <==> SaddleValue(v) > alpha
    ensures FindPattern2dType(v, alpha) == Pattern2dM <==> SaddleValue(v) < alpha
    ensures FindPattern2dType(v, alpha) == Pattern2dE <==> SaddleValue(v) == alpha
  {
    var e := DiagonalImbalance(v);
    DeterminantIsSaddleOffset(v, alpha);
    var d := SaddleValue(v) - alpha;
    assert Determinant(v, alpha) == e * d;
    if d > 0.0 {
      assert e * d > 0.0;
    } else if d < 0.0 {
      assert e * d < 0.0;
    } else {
      assert e * d == 0.0;
    }
  }

  /**
    With the marks on the other diagonal (corners 1 and 3 above alpha) the
    imbalance is negative, so the decider's sign is the opposite of the
    saddle's side: P when the saddle value is below alpha.
   */
  lemma DeciderInvertsOtherDiagonal(v: Values, alpha: real)
    requires v[1] > alpha && v[3] > alpha && v[0] <= alpha && v[2] <= alpha
    ensures DiagonalImbalance(v) < 0.0
    ensures FindPattern2dType(v, alpha) == Pattern2dP <==> SaddleValue(v) < alpha
    ensures FindPattern2dType(v, alpha) == Pattern2dM <==> SaddleValue(v) > alpha
    ensures FindPattern2dType(v, alpha) == Pattern2dE <==> SaddleValue(v) == alpha
  {
    var e := DiagonalImbalance(v);
    DeterminantIsSaddleOffset(v, alpha);
    var d := SaddleValue(v) - alpha;
    assert Determinant(v, alpha) == e * d;
    if d > 0.0 {
      assert e * d < 0.0;
    } else if d < 0.0 {
      assert e * d > 0.0;
    } else {
      assert e * d == 0.0;
    }
  }
}
