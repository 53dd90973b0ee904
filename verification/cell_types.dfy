/**
  The data model of one marching-squares cell: the two enumerations of the
  classifier, the point type of the 50x50 canonical frame, and the `Pattern`
  record that the classifier builds and the interpolation rewrites.

  Corners are listed clockwise from the top-left corner: 0 top-left,
  1 top-right, 2 bottom-right, 3 bottom-left.
 */
module CellTypes {

  datatype Option<+T> = None | Some(value: T)

  /** Topology class; the digit is the number of corners above the iso-value. */
  datatype PatternType = Pattern0 | Pattern1 | Pattern2S | Pattern2D | Pattern3 | Pattern4

  /** Sign of the asymptotic decider's determinant: positive, negative, zero. */
  datatype Pattern2dType = Pattern2dP | Pattern2dM | Pattern2dE

  /** The integer a C++ enumerator of `Pattern2dType` converts to. */
  function Ordinal(t: Pattern2dType): (n: nat)
    ensures n < 3
  {
    match t
    case Pattern2dP => 0
    case Pattern2dM => 1
    case Pattern2dE => 2
  }

  /** A corner of the cell, numbered clockwise from the top-left one. */
  type CornerIndex = i: int | 0 <= i < 4

  /** The corner mask of a cell: `true` where the sample is above the iso-value. */
  type Corners = c: seq<bool> | |c| == 4 witness [false, false, false, false]

  /** The four samples of a cell, in the same order as its mask. */
  type Values = v: seq<real> | |v| == 4 witness [0.0, 0.0, 0.0, 0.0]

  /** Clockwise successor, predecessor and opposite of a corner. */
  function Next(i: CornerIndex): (j: CornerIndex)
    ensures j == (i + 1) % 4
  {
    if i == 3 then 0 else i + 1
  }

  function Prec(i: CornerIndex): (j: CornerIndex)
    ensures j == (i + 3) % 4
  {
    if i == 0 then 3 else i - 1
  }

  function Opp(i: CornerIndex): (j: CornerIndex)
    ensures j == (i + 2) % 4
  {
    if i < 2 then i + 2 else i - 2
  }

  function B2I(b: bool): nat { if b then 1 else 0 }

  /** Number of corners above the iso-value (Eigen's `count()` on the mask row). */
  function CountTrue(c: Corners): (n: nat)
    ensures n <= 4
    ensures n == 0 <==> forall k :: 0 <= k < 4 ==> !c[k]
    ensures n == 4 <==> forall k :: 0 <= k < 4 ==> c[k]
  {
    B2I(c[0]) + B2I(c[1]) + B2I(c[2]) + B2I(c[3])
  }

  /** CountTrue is the number of occurrences of `true` among the four marks. */
  lemma CountTrueCountsMarks(c: Corners)
    ensures CountTrue(c) == multiset(c)[true]
    ensures 4 - CountTrue(c) == multiset(c)[false]
  {
    assert c == [c[0]] + [c[1]] + [c[2]] + [c[3]];
    assert multiset(c) == multiset([c[0]]) + multiset([c[1]]) + multiset([c[2]]) + multiset([c[3]]);
    assert forall b: bool :: multiset([b])[true] == B2I(b) && multiset([b])[false] == 1 - B2I(b);
  }

  /** A point of the 50x50 canonical frame: x grows rightwards, y downwards. */
  datatype Point = Point(x: real, y: real)

  /** Side length of the canonical frame. */
  const EdgeLength: real := 50.0

  /** Midpoints of the four edges of the canonical frame. */
  const TopMid: Point := Point(25.0, 0.0)
  const LeftMid: Point := Point(0.0, 25.0)
  const RightMid: Point := Point(50.0, 25.0)
  const BottomMid: Point := Point(25.0, 50.0)

  /** The edges of the canonical frame. */
  datatype Edge = Top | Right | Bottom | Left

  /** A point lies on an edge when it has that edge's fixed coordinate. */
  predicate OnEdge(p: Point, e: Edge)
  {
    match e
    case Top => p.y == 0.0
    case Left => p.x == 0.0
    case Right => p.x == EdgeLength
    case Bottom => p.y == EdgeLength
  }

  /** The midpoint of an edge. */
  function Midpoint(e: Edge): (p: Point)
    ensures OnEdge(p, e)
  {
    match e
    case Top => TopMid
    case Right => RightMid
    case Bottom => BottomMid
    case Left => LeftMid
  }

  /** One coordinate is 25 and the other 0 or 50. */
  predicate IsEdgeMidpoint(p: Point)
  {
    (p.x == 25.0 && (p.y == 0.0 || p.y == 50.0)) || (p.y == 25.0 && (p.x == 0.0 || p.x == 50.0))
  }

  /** A classified cell. `points` are contour points in the unrotated frame. */
  datatype Pattern = Pattern(
    pattern: PatternType,
    pattern2d: Pattern2dType,
    patternNumber: CornerIndex,
    corners: Corners,
    values: Values,
    alpha: real,
    points: seq<Point>)

  /** The number of points the constructor gives each topology class. */
  function PointCount(t: PatternType): nat
  {
    match t
    case Pattern0 => 0
    case Pattern4 => 0
    case Pattern2D => 4
    case _ => 2
  }

  /** The mask agrees with the samples: a corner is marked exactly when its sample exceeds alpha. */
  predicate Consistent(c: Corners, v: Values, alpha: real)
  {
    forall k :: 0 <= k < 4 ==> (c[k] <==> v[k] > alpha)
  }

  /**
    The corner at frame position k of the unrotated frame of index n:
    0 top-left, 1 top-right, 2 bottom-right, 3 bottom-left.
   */
  function FrameCorner(n: CornerIndex, k: CornerIndex): (i: CornerIndex)
    ensures i == (n + k) % 4
  {
    match k
    case 0 => n
    case 1 => Next(n)
    case 2 => Opp(n)
    case 3 => Prec(n)
  }

  /** The samples of a cell read in the order of its unrotated frame of index n. */
  function FrameValues(v: Values, n: CornerIndex): (w: Values)
    ensures forall k: CornerIndex :: w[k] == v[FrameCorner(n, k)]
  {
    [v[n], v[Next(n)], v[Opp(n)], v[Prec(n)]]
  }

  /** Cyclic shift of a cell's four entries by one position clockwise: entry i moves to entry i+1. */
  function Shift<T>(x: seq<T>): (s: seq<T>)
    requires |x| == 4
    ensures |s| == 4
    ensures forall i :: 0 <= i < 4 ==> s[Next(i)] == x[i]
  {
    [x[3], x[0], x[1], x[2]]
  }
}
