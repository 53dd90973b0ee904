# Marching-squares cell classifier

A Dafny model of the marching-squares demonstration in `exec/rep4.cpp`. It covers how one 2x2 cell of a
sampled scalar field is classified, disambiguated, given default contour points and interpolated, and how
the driver cuts the field into cells.

- **Data model** (`cell_types.dfy`, module `CellTypes`):
  - The two C++ enumerations `PatternType` and `Pattern2dType`.
  - The point type of the 50x50 unrotated frame.
  - The `Pattern` record: class, decider sign, rotation index, corners, values, alpha and points.
  - Corners are listed clockwise from the top-left one. `float` is modelled as `real`.
- **Asymptotic decider** (`decider.dfy`, module `Decider`):
  - `findPattern2dType` with the determinant written exactly as in the source.
  - Lemmas tying the determinant to the saddle value of the cell's bilinear interpolant.
  - A lemma on what a quarter turn of the cell does to the determinant.
- **Classification** (`classifier.dfy`, module `Classifier`): the `Pattern(c, v, a)` constructor.
  - The count of marked corners picks the class.
  - The first-match loops pick the rotation index.
  - The default edge-midpoint layouts are attached to each class.
  - The saddle branch can be read three ways (see Findings):
    - as written;
    - with comparisons instead of assignments;
    - with comparisons and the decider evaluated on the samples in the order of the cell's frame.
- **Interpolation** (`interpolation.dfy`, module `Interpolation`): `linearInterpolation`.
  - Each listed point moves along its edge to where the linear interpolant of the edge's two samples
    equals alpha.
  - The PATTERN2S edge choice can be read two ways, as written or as intended (see Findings).
- **Description** (`description.dfy`, module `Description`): `toString`, plus a reader for its format.
  - Together they show that the line records exactly the class, the saddle sign and the rotation index.
- **Driver** (`field.dfy`, module `Field`):
  - The strict threshold mask `grid > alpha`.
  - Cell extraction in clockwise order.
  - The two loops of `main` that classify every cell and interpolate every cell.
  - The 4x4 demonstration field and its one saddle cell.

In the unrotated frame of a cell with rotation index n:
- corner n is top-left;
- its clockwise successor `Next(n)` is top-right;
- `Opp(n)` is bottom-right;
- `Prec(n)` is bottom-left.

An edge's interpolated coordinate is measured from the first corner of its pair:
- top: (n, Next(n));
- right: (Next(n), Opp(n));
- bottom: (Prec(n), Opp(n));
- left: (n, Prec(n)).

## Model

| member | source | states |
|---|---|---|
| CellTypes.CountTrue | exec/rep4.cpp:73 | The count of marked corners is at most 4. It is 0 exactly when no corner is marked and 4 exactly when every corner is. |
| CellTypes.CountTrueCountsMarks | exec/rep4.cpp:73 | The count is the number of `true` entries of the mask row, and 4 minus it is the number of `false` entries. |
| Decider.FindPattern2dType | exec/rep4.cpp:29-49 | The decider returns P exactly when D > 0, M exactly when D < 0 and E exactly when D = 0, with c0..c3 and D as written. |
| Decider.DeterminantExpanded | exec/rep4.cpp:31-35 | D equals v0*v2 - v1*v3 - alpha*(v0 + v2 - v1 - v3): the product of one diagonal minus the product of the other, corrected by alpha times the diagonal imbalance. |
| Decider.ShiftNegatesDeterminant | exec/rep4.cpp:31-48 | Turning the cell's samples a quarter turn negates D, so the decider's P and M swap and E stays. |
| Decider.DeterminantIsSaddleOffset | exec/rep4.cpp:31-35 | When the imbalance is non-zero, D is the imbalance times (saddle value of the bilinear interpolant minus alpha). |
| Decider.DeciderReportsSaddleSide | exec/rep4.cpp:35-48 | When corners 0 and 2 are above alpha and 1 and 3 are not, the imbalance is positive. P then holds exactly when the saddle value is above alpha, M exactly when it is below, and E exactly when it equals alpha. |
| Decider.DeciderInvertsOtherDiagonal | exec/rep4.cpp:35-48 | When corners 1 and 3 are above alpha and 0 and 2 are not, the imbalance is negative. P then holds exactly when the saddle value is below alpha, M exactly when it is above, and E exactly when it equals alpha. |
| Classifier.FirstIndexOf | exec/rep4.cpp:88-95 | The loop's answer is the first corner at or after the start whose mark is the one sought, with no such corner before it. It is None only when no corner from the start on has that mark. |
| Classifier.ScanTwo | exec/rep4.cpp:126-169 | The count-two scan stops at the first step where either the adjacent test or the diagonal test fires. It reports no step only if neither test fires anywhere. |
| Classifier.CountTwoHasMatch | exec/rep4.cpp:125-170 | With exactly two marked corners some step of the scan fires, so the loop never falls through without assigning a pattern. |
| Classifier.DiagonalLayoutIsPermutation | exec/rep4.cpp:146-166 | Each of the three saddle layouts lists each of the four edge midpoints exactly once. |
| Classifier.ClassifyBy | exec/rep4.cpp:67-172 | The constructor keeps corners, values and alpha. PATTERN0, 1, 3 and 4 are chosen exactly for counts 0, 1, 3 and 4, and PATTERN2S or 2D exactly for count 2. The number of default points is 0, 2 or 4 by class, and every default point is an edge midpoint. |
| Classifier.CountZeroOrFour | exec/rep4.cpp:75-123 | Count 0 gives PATTERN0 and count 4 gives PATTERN4, both with index 0, decider default E and no points. |
| Classifier.CountOneIndex | exec/rep4.cpp:83-99 | Count 1 gives PATTERN1 with index the unique marked corner and points [top, left]. |
| Classifier.CountThreeIndex | exec/rep4.cpp:101-117 | Count 3 gives PATTERN3 with index the unique unmarked corner and the same points [top, left] as PATTERN1. |
| Classifier.AdjacentPairIndex | exec/rep4.cpp:126-139 | Two marked neighbours give PATTERN2S. The index is the unique corner whose clockwise successor is also marked, and the points are [left, right]. |
| Classifier.DiagonalPairIndex | exec/rep4.cpp:140-168 | Two marked opposite corners give PATTERN2D with index 0 or 1. Corners n and Opp(n) are marked and Next(n), Prec(n) are not, and the points are the layout of the stored sign. |
| Classifier.AsWrittenDiagonalAlwaysNegative | exec/rep4.cpp:143-159 | As written, every PATTERN2D cell is stored with sign M and points [top, left, bottom, right], whatever D is. |
| Classifier.AsWrittenIgnoresDecider | exec/rep4.cpp:143-153 | A consistent saddle cell with D = 300 (decider P) is stored as M. |
| Classifier.DiagonalLayoutCuts | exec/rep4.cpp:146-166 | A layout is drawn as two segments, points 0-1 and points 2-3. In the frame of a saddle cell, P's segments cut off exactly the two unmarked corners, which joins the marked ones. M's segments cut off exactly the two marked corners. E's segments cut off no corner. |
| Classifier.ComparedFollowsDecider | exec/rep4.cpp:143-166 | With `==` in the saddle branch, a PATTERN2D cell joins its marked corners exactly when D > 0 and cuts them off exactly when D < 0. |
| Classifier.ComparedInvertsOddIndex | exec/rep4.cpp:143 | Take `==` with D computed on the samples in corner order, and a cell whose mask agrees with its samples. Index 0 joins the marked corners exactly when the saddle value is above alpha. Index 1 joins them exactly when it is below alpha, and cuts them off exactly when it is above, which is the opposite of the bilinear interpolant. |
| Classifier.FrameSaddleValue | exec/rep4.cpp:143 | Reading the samples of a saddle cell with index 0 or 1 in frame order keeps the imbalance non-zero and the saddle value unchanged. |
| Classifier.CorrectedLayoutMatchesSaddle | exec/rep4.cpp:143-166 | Take `==` with D computed on the samples in frame order. Every saddle cell whose mask agrees with its samples joins its marked corners exactly when the saddle value is above alpha, and cuts them off exactly when it is below. |
| Classifier.ReadingsAgreeOffDiagonal | exec/rep4.cpp:75-170 | Any two readings of the saddle branch build the same cell whenever one of them does not build PATTERN2D. |
| Classifier.ShiftKeepsType | exec/rep4.cpp:73-170 | Moving every corner one place clockwise keeps the topology class. |
| Classifier.ShiftAdvancesIndex | exec/rep4.cpp:87-144 | After a clockwise shift the index of PATTERN1, 3 and 2S advances by one mod 4, and PATTERN0/4 stay at 0. PATTERN2D toggles between 0 and 1 instead. |
| Interpolation.Crossing | exec/rep4.cpp:229-273 | An interpolated point keeps its edge's fixed coordinate (y=0 top, x=0 left, x=50 right, y=50 bottom). Its free coordinate is 50*(alpha - v[a])/(v[b] - v[a]) for that edge's corner pair. |
| Interpolation.InterpolateBy | exec/rep4.cpp:220-276 | Interpolation changes only the points and keeps their number, and it is a no-op for PATTERN0/4. Each rewritten point lies on its edge with the edge formula as free coordinate, and the points after the rewritten ones are untouched. |
| Interpolation.EdgeCoordinateBounds | exec/rep4.cpp:229 | When alpha lies between two different edge samples, the coordinate is in [0, 50]. It is 0 exactly when alpha is the first sample and 50 exactly when alpha is the second. |
| Interpolation.InterpolationIdempotent | exec/rep4.cpp:220-276 | Interpolating an interpolated cell changes nothing more. |
| Interpolation.ClassifiedEdgesFit | exec/rep4.cpp:220-276 | For every classified cell each rewritten edge separates a marked from an unmarked corner, and the default point in that slot is the edge's midpoint. The one exception is the literal edges of PATTERN2S with an odd index. |
| Interpolation.InterpolationInFrame | exec/rep4.cpp:220-276 | For a cell whose mask agrees with its samples (same exception), no division is by zero and every interpolated point lies on its edge inside the 50x50 frame. |
| Interpolation.IntendedInterpolationInFrame | exec/rep4.cpp:233-244 | Take PATTERN2S always on the left and right edges, and a cell whose mask agrees with its samples. Every such cell of the literal classifier interpolates without a zero division. Each default point moves along its own edge and stays inside the frame. |
| Interpolation.OddAdjacentEdgesOutsideFrame | exec/rep4.cpp:239-243 | As written, PATTERN2S with an odd index takes its points from the top and the bottom edge. Both top corners are marked, so the top crossing, when defined, lies strictly outside [0, 50]. Both bottom corners are unmarked, so the bottom crossing, when defined, lies outside (0, 50): beyond the edge or on a frame corner. |
| Interpolation.MarkedEdgeOutside | exec/rep4.cpp:229 | On an edge whose two different samples are both above alpha, the crossing coordinate is below 0 or above 50. |
| Interpolation.UnmarkedEdgeOutside | exec/rep4.cpp:229 | On an edge whose two different samples are both at most alpha, the crossing coordinate is at most 0 or at least 50. |
| Interpolation.OddAdjacentExample | exec/rep4.cpp:233-244 | For marks [F,T,T,F], samples [0,10,20,4] and alpha 5, the literal points are (-25,0) and (62.5,50). The corrected points are (0,25) and (50,46.875). |
| Description.ToString | exec/rep4.cpp:279-328 | The line starts with "Pattern Number  = ", ends with a newline preceded by the index digit, and has the length given by its parts. |
| Description.DescriptionRoundTrip | exec/rep4.cpp:279-328 | Reading a description back recovers the class, the sign (for PATTERN2D only) and the index. |
| Description.DescriptionDeterminesSummary | exec/rep4.cpp:279-328 | Two cells have the same description exactly when they agree on class, saddle sign and index. |
| Field.Mask | exec/rep4.cpp:347 | The mask has the field's shape, and a sample is marked exactly when it is strictly above alpha. |
| Field.CellMaskConsistent | exec/rep4.cpp:357-358 | A cell's corners and values are taken clockwise from the top-left sample, and each corner is marked exactly when its sample exceeds alpha. |
| Field.CellPattern | exec/rep4.cpp:354-360 | The cell built for (i, j) is the classification of its own corners and values, its values are the four samples in clockwise order, and its mask agrees with them. |
| Field.CellExtraction | exec/rep4.cpp:357-360 | Classifying the four marks and four samples the driver reads for (i, j) gives exactly the pattern of cell (i, j). |
| Field.ClassifyRow | exec/rep4.cpp:352-361 | The inner classification loop yields one cell per column minus one, and entry k is the pattern of cell (i, k). |
| Field.ClassifyGrid | exec/rep4.cpp:350-362 | The classification loop yields one row per field row minus one and one cell per column minus one, and entry (i, j) is the pattern of cell (i, j). |
| Field.InterpolateRow | exec/rep4.cpp:395-398 | The inner interpolation loop keeps the row's length and replaces every cell by its interpolation. |
| Field.InterpolateGrid | exec/rep4.cpp:393-399 | The interpolation loop keeps the shape, replaces every cell by its interpolation, and changes nothing but the points. |
| Field.GridInterpolable | exec/rep4.cpp:393-399 | Every cell of a field can be interpolated with every point inside its frame. With the corrected edge choice this always holds; as written it holds as long as no cell is PATTERN2S with an odd index. |
| Field.DemoSaddleCell | exec/rep4.cpp:335-360 | In the demonstration field with alpha 21, cell (2, 0) has marks [F,T,F,T], is PATTERN2D with index 1 and has D = 2 (decider P). It is stored as M, and its description line reads back as class 2D, sign D<0 and configuration 1. |
| Field.DemoSaddleReadings | exec/rep4.cpp:335-360 | The saddle value of cell (2, 0) is 20.8, below alpha 21, so its marked corners must be cut off. The literal M layout does that, so the stored M is the right layout. With `==` and D in corner order the cell stores P and joins them. With D in frame order it stores M. |

## Left out

- `Pattern::draw()` (exec/rep4.cpp:187-216) is not modelled. Raster drawing, `cv::rotate` and `cv::circle` are library calls with no semantics stated here. So the rotation of the unrotated frame into place is not modelled either.
- `main`'s window, console output, `waitKey`, the mosaic built with `copyTo`, and the image written to disk (exec/rep4.cpp:333, 364-421) are display and file I/O.
- `exec/rep3.cpp` (image difference) and `exec/rep11.py` (PCA plots) are not part of this model. They are wrappers over imaging and plotting libraries.
- IEEE single-precision rounding, NaN and infinity are not modelled. Samples are `real`. Every interpolation division carries the precondition that the edge's two samples differ, because the source divides unguarded.
- The default constructor `Pattern()` (exec/rep4.cpp:56-61) is not modelled. It only fills the 3x3 array before the loop overwrites every entry.
- Field.ClassifyGrid: stated for any rectangular field of at least 2x2 samples rather than only the fixed 4x4 `Eigen::Array44f`. The demonstration field is `Field.DemoField`.
- Description.ToString: `std::to_string(patternNumber)` is modelled only for the indices 0..3, which are all the constructor produces.
- The saddle branch at exec/rep4.cpp:146 and 153 is modelled as the code is written: `=` stores PATTERN2DP (0, false) and then PATTERN2DM (1, true), so every saddle cell ends as M. The model follows the code.

## Findings

| source | as written | input that shows it | evidently intended | confidence | as-written member | corrected member |
|---|---|---|---|---|---|---|
| exec/rep4.cpp:146-153 | `if (pattern2d = PATTERN2DP)` and `else if (pattern2d = PATTERN2DM)` assign instead of compare. The decider's result is overwritten, and every saddle cell is stored as M with the top, left, bottom, right layout. | marks [T,F,T,F], samples [30,0,30,0], alpha 10: D = 300, decider P, stored M. Also cell (2,0) of the demonstration field: D = 2, stored M. | `==` in both conditions: the stored sign and the layout follow the decider. | high; not executed | Classifier.AsWrittenIgnoresDecider | Classifier.ComparedFollowsDecider |
| exec/rep4.cpp:239-243 | For PATTERN2S with an odd index, the points are interpolated on the top edge (n, Next(n)) and the bottom edge (Prec(n), Opp(n)). The top edge joins two marked corners, so its crossing, when defined, lies outside [0, 50]. The bottom edge joins two unmarked corners, so its crossing, when defined, lies outside the edge or on a frame corner. Either division can be by zero. | marks [F,T,T,F], samples [0,10,20,4], alpha 5: index 1, points (-25,0) and (62.5,50). | The left and right edges for every index, as for even ones: points (0,25) and (50,46.875). | high; not executed | Interpolation.OddAdjacentEdgesOutsideFrame | Interpolation.IntendedInterpolationInFrame |
| exec/rep4.cpp:143 | `findPattern2dType(values, alpha)` reads the samples in corner order 0..3. The layouts at lines 146-166, interpolated at lines 247-268, are drawn in the frame of index n. For index 1 the corner-order imbalance is negative, so D > 0 means the saddle value is below alpha. P's layout joins the marked corners, which is then the wrong topology. With `=` fixed to `==`, every saddle cell with index 1 gets the inverted layout. | Cell (2,0) of the demonstration field: samples [16,22,20,24], alpha 21, index 1. D = 2 and the decider says P, but the saddle value is 20.8 < 21. The frame-order samples [22,20,24,16] give D = -2, M. The literal code stores M, which is right here by accident. | D evaluated on the samples in frame order (equivalently, its sign flipped for index 1): the marked corners are joined exactly when the saddle value exceeds alpha. | high; not executed | Classifier.ComparedInvertsOddIndex | Classifier.CorrectedLayoutMatchesSaddle |
