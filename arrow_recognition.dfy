/**
 * Arrow detection heuristics of arrow_recognition.py.
 *
 * The OpenCV primitives (polygon approximation, convex hull, template
 * matching) are not modelled; their outputs enter as values: a polygon's
 * vertices, the hull's vertex indices, one (score, location) sample per
 * template scale.
 */
module ArrowRecognition {
  import opened Wrappers

  /** MATCH_THRESHOLD: a template match must score strictly above it. */
  const MatchThreshold: real := 0.8

  datatype Point = Point(x: int, y: int)

  /** What identify_arrow_tip yields: a tip, None, or the IndexError numpy raises. */
  datatype TipResult = Tip(p: Point) | NoTip | IndexError

  /** The strings "Left", "Right" and "None" of determine_direction. */
  datatype Direction = Left | Right | NoDirection

  // ---------------------------------------------------------------------
  // Python indexing and numpy.setdiff1d
  // ---------------------------------------------------------------------

  /** Python's `xs[idx]` on a sequence of length `len`: negative indices
      count from the end, anything outside [-len, len) raises IndexError (None). */
  function PyIndex(len: nat, idx: int): (r: Option<nat>)
    ensures r.Some? <==> -(len as int) <= idx < len
    ensures r.Some? ==> r.value == (if idx < 0 then idx + len else idx)
    ensures r.Some? ==> r.value == idx % len
  {
    if 0 <= idx < len then Some(idx)
    else if -(len as int) <= idx < 0 then Some(idx + len)
    else None
  }

  /** `np.setdiff1d(np.arange(n), hull)`: the indices below n that are not
      hull indices, ascending and without repetition. */
  function Complement(n: nat, hull: seq<int>): (rem: seq<nat>)
    ensures forall k :: 0 <= k < |rem| ==> rem[k] < n && rem[k] !in hull
  {
    if n == 0 then []
    else Complement(n - 1, hull) + (if n - 1 in hull then [] else [n - 1])
  }

  /** Every index below n that is not a hull index is in the complement. */
  lemma {:induction false} ComplementComplete(n: nat, hull: seq<int>, v: int)
    requires 0 <= v < n && v !in hull
    ensures v in Complement(n, hull)
  {
    if v < n - 1 {
      ComplementComplete(n - 1, hull, v);
    }
  }

  predicate StrictlyIncreasing(s: seq<int>)
  {
    forall a, b :: 0 <= a < b < |s| ==> s[a] < s[b]
  }

  /** setdiff1d returns its result sorted and free of duplicates. */
  lemma {:induction false} ComplementIncreasing(n: nat, hull: seq<int>)
    ensures StrictlyIncreasing(Complement(n, hull))
  {
    if n > 0 {
      ComplementIncreasing(n - 1, hull);
    }
  }

  predicate Distinct(s: seq<int>)
  {
    forall a, b :: 0 <= a < b < |s| ==> s[a] != s[b]
  }

  /** What cv2.convexHull(approx, returnPoints=False) guarantees of its
      index output: distinct indices of vertices of the polygon. */
  predicate ValidHull(hull: seq<int>, n: nat)
  {
    Distinct(hull) && forall k :: 0 <= k < |hull| ==> 0 <= hull[k] < n
  }

  ghost function HullSet(hull: seq<int>, n: nat): set<int>
  {
    set h | h in hull && 0 <= h < n
  }

  /** The complement and the in-range hull indices split 0..n-1 between them. */
  lemma {:induction false} ComplementSize(n: nat, hull: seq<int>)
    ensures |Complement(n, hull)| + |HullSet(hull, n)| == n
  {
    if n > 0 {
      ComplementSize(n - 1, hull);
      if n - 1 in hull {
        assert HullSet(hull, n) == HullSet(hull, n - 1) + {n - 1};
      } else {
        assert HullSet(hull, n) == HullSet(hull, n - 1);
      }
    }
  }

  lemma {:induction false} DistinctCard(s: seq<int>)
    requires Distinct(s)
    ensures |set h | h in s| == |s|
  {
    if s != [] {
      DistinctCard(s[1..]);
      assert (set h | h in s) == (set h | h in s[1..]) + {s[0]};
    }
  }

  /** With 7 vertices and 5 distinct in-range hull indices, exactly two
      vertices are off the hull. */
  lemma ArrowComplementHasTwo(n: nat, hull: seq<int>)
    requires n == 7 && |hull| == 5 && ValidHull(hull, n)
    ensures |Complement(n, hull)| == 2
    ensures Complement(n, hull)[0] < Complement(n, hull)[1]
  {
    ComplementSize(n, hull);
    ComplementIncreasing(n, hull);
    DistinctCard(hull);
    assert HullSet(hull, n) == set h | h in hull;
  }

  // ---------------------------------------------------------------------
  // Acceptance test of process_frame
  // ---------------------------------------------------------------------

  /** `4 < len(hull) < 6 and len(hull) + 2 == len(approx) and len(approx) > 6`:
      exactly a 5-point hull on a 7-vertex polygon. */
  predicate IsArrowCandidate(hullCount: int, vertexCount: int)
    ensures IsArrowCandidate(hullCount, vertexCount) <==> hullCount == 5 && vertexCount == 7
  {
    4 < hullCount < 6 && hullCount + 2 == vertexCount && vertexCount > 6
  }

  // ---------------------------------------------------------------------
  // identify_arrow_tip
  // ---------------------------------------------------------------------

  /** The two probes of identify_arrow_tip written out with explicit
      modular arithmetic, `rem` being the off-hull indices: probe 0 compares
      points[(r0 + 2) mod n] with points[(r_last - 2) mod n], probe 1
      compares points[(r1 + 2) mod n] with points[(r0 - 2) mod n]. */
  function TipByCoincidence(points: seq<Point>, rem: seq<nat>): (r: TipResult)
    requires forall k :: 0 <= k < |rem| ==> rem[k] < |points|
    ensures |rem| >= 2 && |points| >= 2 ==> r != IndexError
  {
    var n := |points|;
    if |rem| == 0 || n < 2 then IndexError
    else if points[(rem[0] + 2) % n] == points[(rem[|rem| - 1] - 2) % n] then Tip(points[(rem[0] + 2) % n])
    else if |rem| < 2 then IndexError
    else if points[(rem[1] + 2) % n] == points[(rem[0] - 2) % n] then Tip(points[(rem[1] + 2) % n])
    else NoTip
  }

  /** A tip found by the two probes is a vertex of the polygon, namely the
      one two steps after an off-hull vertex examined by a probe. */
  lemma TipIsVertex(points: seq<Point>, rem: seq<nat>)
    requires forall k :: 0 <= k < |rem| ==> rem[k] < |points|
    ensures TipByCoincidence(points, rem).Tip? ==> TipByCoincidence(points, rem).p in points
    ensures TipByCoincidence(points, rem).Tip? ==>
              (exists i :: 0 <= i < 2 && i < |rem| && TipByCoincidence(points, rem).p == points[(rem[i] + 2) % |points|])
  {
  }

  /** identify_arrow_tip: two iterations over the off-hull indices with
      Python's wraparound indexing and an early return on the first match. */
  method IdentifyArrowTip(points: seq<Point>, hull: seq<int>) returns (r: TipResult)
    ensures r == TipByCoincidence(points, Complement(|points|, hull))
  {
    var n := |points|;
    var remaining := Complement(n, hull);
    ghost var expected := TipByCoincidence(points, remaining);
    for i := 0 to 2
      invariant i >= 1 ==> (n >= 2 && |remaining| >= 1 &&
        points[(remaining[0] + 2) % n] != points[(remaining[|remaining| - 1] - 2) % n])
      invariant i >= 2 ==> (|remaining| >= 2 &&
        points[(remaining[1] + 2) % n] != points[(remaining[0] - 2) % n])
    {
      var a := PyIndex(|remaining|, i);
      if a.None? {
        return IndexError;
      }
      assert a.value == i;
      var j := (remaining[a.value] + 2) % n;
      // remaining[i - 1] cannot fail once remaining[i] did not
      var previous := remaining[PyIndex(|remaining|, i - 1).value];
      assert previous == if i == 0 then remaining[|remaining| - 1] else remaining[0];
      var c := PyIndex(n, previous - 2);
      if c.None? {
        assert n == 1 && i == 0;
        return IndexError;
      }
      assert c.value == (previous - 2) % n;
      if points[j] == points[c.value] {
        assert expected == Tip(points[j]);
        return Tip(points[j]);
      }
    }
    return NoTip;
  }

  /** A hull of m indices covers at most m distinct in-range indices. */
  lemma {:induction false} HullSetBound(hull: seq<int>, n: nat)
    ensures |HullSet(hull, n)| <= |hull|
  {
    if hull != [] {
      HullSetBound(hull[1..], n);
      var rest := HullSet(hull[1..], n);
      if 0 <= hull[0] < n {
        assert HullSet(hull, n) == rest + {hull[0]};
      } else {
        assert HullSet(hull, n) == rest;
      }
    }
  }

  /** On a polygon the acceptance test lets through, identify_arrow_tip
      never raises, whatever five indices the hull holds: at least two
      vertices are off the hull, and every index used is in range. */
  lemma ArrowTipDefined(points: seq<Point>, hull: seq<int>)
    requires IsArrowCandidate(|hull|, |points|)
    ensures |Complement(|points|, hull)| >= 2
    ensures TipByCoincidence(points, Complement(|points|, hull)) != IndexError
  {
    ComplementSize(|points|, hull);
    HullSetBound(hull, |points|);
  }

  // ---------------------------------------------------------------------
  // determine_direction
  // ---------------------------------------------------------------------

  /** Vertices strictly to the right of x (`left_points` of determine_direction). */
  function CountGreaterX(pts: seq<Point>, x: int): (r: nat)
    ensures r <= |pts|
  {
    if pts == [] then 0 else (if pts[0].x > x then 1 else 0) + CountGreaterX(pts[1..], x)
  }

  /** Vertices strictly to the left of x (`right_points` of determine_direction). */
  function CountLessX(pts: seq<Point>, x: int): (r: nat)
    ensures r <= |pts|
  {
    if pts == [] then 0 else (if pts[0].x < x then 1 else 0) + CountLessX(pts[1..], x)
  }

  /** Vertices on the vertical line through x, counted on neither side. */
  function CountEqualX(pts: seq<Point>, x: int): nat
  {
    if pts == [] then 0 else (if pts[0].x == x then 1 else 0) + CountEqualX(pts[1..], x)
  }

  /** Every vertex is on exactly one of the three sides. */
  lemma {:induction false} CountsPartition(pts: seq<Point>, x: int)
    ensures CountGreaterX(pts, x) + CountLessX(pts, x) + CountEqualX(pts, x) == |pts|
  {
    if pts != [] {
      CountsPartition(pts[1..], x);
    }
  }

  /** A tip that is itself a vertex is counted on neither side. */
  lemma {:induction false} VertexOnItsOwnLine(pts: seq<Point>, tip: Point)
    requires tip in pts
    ensures CountEqualX(pts, tip.x) >= 1
  {
    if pts[0] != tip {
      VertexOnItsOwnLine(pts[1..], tip);
    }
  }

  lemma SidesBound(pts: seq<Point>, tip: Point)
    requires tip in pts
    ensures CountGreaterX(pts, tip.x) + CountLessX(pts, tip.x) <= |pts| - 1
  {
    CountsPartition(pts, tip.x);
    VertexOnItsOwnLine(pts, tip);
  }

  /** determine_direction: a side wins when it holds strictly more vertices
      than the other and more than four of them. */
  function DetermineDirection(approx: seq<Point>, tip: Point): (d: Direction)
    ensures d == Left <==> CountGreaterX(approx, tip.x) > CountLessX(approx, tip.x) && CountGreaterX(approx, tip.x) >= 5
    ensures d == Right <==> CountLessX(approx, tip.x) > CountGreaterX(approx, tip.x) && CountLessX(approx, tip.x) >= 5
    ensures CountGreaterX(approx, tip.x) == CountLessX(approx, tip.x) ==> d == NoDirection
  {
    var leftPoints := CountGreaterX(approx, tip.x);
    var rightPoints := CountLessX(approx, tip.x);
    if leftPoints > rightPoints && leftPoints > 4 then Left
    else if rightPoints > leftPoints && rightPoints > 4 then Right
    else NoDirection
  }

  /** On a 7-vertex arrow whose tip is a vertex, a decided direction leaves
      at most one vertex on the losing side. */
  lemma DirectionMargin(approx: seq<Point>, tip: Point)
    requires |approx| == 7 && tip in approx
    ensures DetermineDirection(approx, tip) == Left ==> CountLessX(approx, tip.x) <= 1
    ensures DetermineDirection(approx, tip) == Right ==> CountGreaterX(approx, tip.x) <= 1
  {
    SidesBound(approx, tip);
  }

  function MirrorPoint(p: Point): Point
  {
    Point(-p.x, p.y)
  }

  /** The polygon reflected about the y axis. */
  function Mirror(pts: seq<Point>): (m: seq<Point>)
    ensures |m| == |pts|
  {
    if pts == [] then [] else [MirrorPoint(pts[0])] + Mirror(pts[1..])
  }

  function Opposite(d: Direction): Direction
  {
    match d
    case Left => Right
    case Right => Left
    case NoDirection => NoDirection
  }

  lemma {:induction false} MirrorSwapsCounts(pts: seq<Point>, x: int)
    ensures CountGreaterX(Mirror(pts), -x) == CountLessX(pts, x)
    ensures CountLessX(Mirror(pts), -x) == CountGreaterX(pts, x)
  {
    if pts != [] {
      MirrorSwapsCounts(pts[1..], x);
      assert Mirror(pts)[0] == MirrorPoint(pts[0]);
      assert Mirror(pts)[1..] == Mirror(pts[1..]);
    }
  }

  /** The rule is symmetric: reflecting the arrow swaps Left and Right. */
  lemma DirectionMirror(approx: seq<Point>, tip: Point)
    ensures DetermineDirection(Mirror(approx), MirrorPoint(tip)) == Opposite(DetermineDirection(approx, tip))
  {
    MirrorSwapsCounts(approx, tip.x);
  }

  /** A right-pointing arrow outline: a tail rectangle (x from 0 to 3) and a
      head whose tip is (5, 2); vertices 1 and 5 are the reflex corners off
      the hull, whose indices are RightArrowHull. */
  const RightArrow: seq<Point> :=
    [Point(0, 1), Point(3, 1), Point(3, 0), Point(5, 2), Point(3, 4), Point(3, 3), Point(0, 3)]
  const RightArrowHull: seq<int> := [0, 2, 3, 4, 6]

  /** No two vertices of the polygon coincide. */
  predicate DistinctPoints(points: seq<Point>)
  {
    forall a, b :: 0 <= a < b < |points| ==> points[a] != points[b]
  }

  /** A strictly increasing sequence bounded by hi has room for at most
      hi - s[0] + 1 elements. */
  lemma {:induction false} IncreasingBound(s: seq<nat>, hi: int)
    requires s != [] && StrictlyIncreasing(s)
    requires forall k :: 0 <= k < |s| ==> s[k] <= hi
    ensures s[0] + |s| - 1 <= hi
  {
    if |s| > 1 {
      IncreasingBound(s[1..], hi);
    }
  }

  /** A strictly increasing sequence holding both lo and hi and nothing else
      is [lo, hi]. */
  lemma TwoValued(s: seq<nat>, lo: nat, hi: nat)
    requires lo < hi && StrictlyIncreasing(s) && lo in s && hi in s
    requires forall k :: 0 <= k < |s| ==> s[k] == lo || s[k] == hi
    ensures s == [lo, hi]
  {
    forall k | 1 <= k < |s|
      ensures s[k] == hi
    {
      assert lo <= s[0] < s[k];
    }
    assert |s| >= 2;
    IncreasingBound(s[1..], hi);
  }

  /** A hull leaving out exactly lo and hi (lo < hi) of the indices 0..6. */
  lemma ComplementOfTwo(hull: seq<int>, lo: nat, hi: nat)
    requires lo < hi < 7
    requires forall v :: 0 <= v < 7 ==> (v in hull <==> v != lo && v != hi)
    ensures Complement(7, hull) == [lo, hi]
  {
    var rem := Complement(7, hull);
    ComplementIncreasing(7, hull);
    ComplementComplete(7, hull, lo);
    ComplementComplete(7, hull, hi);
    forall k | 0 <= k < |rem|
      ensures rem[k] == lo || rem[k] == hi
    {
      assert rem[k] < 7 && rem[k] !in hull;
    }
    TwoValued(rem, lo, hi);
  }

  /** Tip t in 2..4: probe 0 pairs t - 2 with t + 2 and meets vertex t. */
  lemma ProbeZeroFindsTip(points: seq<Point>, t: nat)
    requires |points| == 7 && 2 <= t < 5
    ensures TipByCoincidence(points, [t - 2, t + 2]) == Tip(points[t])
  {
  }

  /** Tip t in 0..1: probe 0 compares two different vertices; probe 1 wraps
      (t + 5) + 2 round to t. */
  lemma ProbeOneWrapsUp(points: seq<Point>, t: nat)
    requires |points| == 7 && t < 2 && DistinctPoints(points)
    ensures TipByCoincidence(points, [t + 2, t + 5]) == Tip(points[t])
  {
  }

  /** Tip t in 5..6: probe 0 compares two different vertices; probe 1 wraps
      the negative index (t - 5) - 2 round to t. */
  lemma ProbeOneWrapsDown(points: seq<Point>, t: nat)
    requires |points| == 7 && 5 <= t < 7 && DistinctPoints(points)
    ensures TipByCoincidence(points, [t - 5, t - 2]) == Tip(points[t])
  {
  }

  /** The arrow layout the tip locator relies on: on a 7-vertex polygon whose
      only off-hull vertices lie two steps on either side of vertex t, the
      locator returns vertex t, wherever t sits in the vertex order. For
      t = 2, 3, 4 probe 0 finds it; for t = 0, 1, 5, 6 probe 1 finds it,
      through the wraparound of (r1 + 2) mod 7 or of the negative index r0 - 2. */
  lemma ArrowLayoutTip(points: seq<Point>, hull: seq<int>, t: nat)
    requires |points| == 7 && t < 7 && DistinctPoints(points)
    requires forall v :: 0 <= v < 7 ==> (v in hull <==> v != (t + 2) % 7 && v != (t + 5) % 7)
    ensures TipByCoincidence(points, Complement(|points|, hull)) == Tip(points[t])
  {
    if t < 2 {
      ComplementOfTwo(hull, t + 2, t + 5);
      ProbeOneWrapsUp(points, t);
    } else if t < 5 {
      ComplementOfTwo(hull, t - 2, t + 2);
      ProbeZeroFindsTip(points, t);
    } else {
      ComplementOfTwo(hull, t - 5, t - 2);
      ProbeOneWrapsDown(points, t);
    }
  }

  /** All six other vertices of RightArrow lie left of its tip. */
  lemma RightArrowCounts()
    ensures CountGreaterX(RightArrow, 5) == 0 && CountLessX(RightArrow, 5) == 6
  {
  }

  /** On RightArrow the heuristic finds the real tip and reports Right. */
  lemma RightArrowExample()
    ensures IsArrowCandidate(|RightArrowHull|, |RightArrow|)
    ensures TipByCoincidence(RightArrow, Complement(|RightArrow|, RightArrowHull)) == Tip(Point(5, 2))
    ensures DetermineDirection(RightArrow, Point(5, 2)) == Right
  {
    ArrowLayoutTip(RightArrow, RightArrowHull, 3);
    RightArrowCounts();
  }

  // ---------------------------------------------------------------------
  // process_frame
  // ---------------------------------------------------------------------

  /** One contour as process_frame sees it: the approxPolyDP vertices and the
      convexHull vertex indices. */
  datatype Shape = Shape(approx: seq<Point>, hull: seq<int>)

  /** What process_frame reports for a contour: its position in the contour
      list (the contour drawn), the printed direction and the tip marked. */
  datatype Report = Report(contour: nat, direction: Direction, tip: Point)

  /** The tip identify_arrow_tip finds on a shape, called with the vertices
      and the flattened hull indices; on an accepted shape it never raises. */
  function ShapeTip(s: Shape): (r: TipResult)
    ensures r.Tip? ==> r.p in s.approx
    ensures IsArrowCandidate(|s.hull|, |s.approx|) ==> r != IndexError
  {
    TipIsVertex(s.approx, Complement(|s.approx|, s.hull));
    if IsArrowCandidate(|s.hull|, |s.approx|) then ArrowTipDefined(s.approx, s.hull); TipByCoincidence(s.approx, Complement(|s.approx|, s.hull))
    else TipByCoincidence(s.approx, Complement(|s.approx|, s.hull))
  }

  /** The body of process_frame's loop for contour number k. */
  function Classify(k: nat, s: Shape): (r: Option<Report>)
    ensures r.Some? <==> IsArrowCandidate(|s.hull|, |s.approx|) && ShapeTip(s).Tip?
                         && DetermineDirection(s.approx, ShapeTip(s).p) != NoDirection
    ensures r.Some? ==> r.value.contour == k && r.value.tip in s.approx && r.value.direction != NoDirection
                        && r.value.tip == ShapeTip(s).p
                        && r.value.direction == DetermineDirection(s.approx, r.value.tip)
  {
    if !IsArrowCandidate(|s.hull|, |s.approx|) then None
    else
      match ShapeTip(s)
      case Tip(tip) =>
        var direction := DetermineDirection(s.approx, tip);
        if direction != NoDirection then Some(Report(k, direction, tip)) else None
      case _ => None
  }

  /** All reports of one frame, in contour order. */
  function FrameReports(shapes: seq<Shape>): (reports: seq<Report>)
    ensures forall m :: 0 <= m < |reports| ==> (reports[m].contour < |shapes| &&
      Classify(reports[m].contour, shapes[reports[m].contour]) == Some(reports[m]))
    ensures forall m, m' :: 0 <= m < m' < |reports| ==> reports[m].contour < reports[m'].contour
  {
    if shapes == [] then []
    else
      var k := |shapes| - 1;
      FrameReports(shapes[..k]) + match Classify(k, shapes[k]) case Some(r) => [r] case None => []
  }

  /** Every contour that passes the tests is reported (the converse is
      FrameReports' own postcondition). */
  lemma {:induction false} FrameReportsComplete(shapes: seq<Shape>, k: nat)
    requires k < |shapes| && Classify(k, shapes[k]).Some?
    ensures Classify(k, shapes[k]).value in FrameReports(shapes)
  {
    var last := |shapes| - 1;
    var prefix := shapes[..last];
    var tail := match Classify(last, shapes[last]) case Some(r) => [r] case None => [];
    assert FrameReports(shapes) == FrameReports(prefix) + tail;
    if k < last {
      assert prefix[k] == shapes[k];
      FrameReportsComplete(prefix, k);
    } else {
      assert tail == [Classify(k, shapes[k]).value];
    }
  }

  /** process_frame's loop over the contours of one frame. */
  method ProcessFrame(shapes: seq<Shape>) returns (reports: seq<Report>)
    ensures reports == FrameReports(shapes)
  {
    reports := [];
    for k := 0 to |shapes|
      invariant reports == FrameReports(shapes[..k])
    {
      assert shapes[..k + 1][..k] == shapes[..k];
      ghost var step := match Classify(k, shapes[k]) case Some(r) => [r] case None => [];
      assert FrameReports(shapes[..k + 1]) == FrameReports(shapes[..k]) + step;
      var s := shapes[k];
      if IsArrowCandidate(|s.hull|, |s.approx|) {
        var tip := IdentifyArrowTip(s.approx, s.hull);
        if tip.Tip? {
          var direction := DetermineDirection(s.approx, tip.p);
          if direction != NoDirection {
            reports := reports + [Report(k, direction, tip.p)];
          }
        }
      }
    }
    assert shapes[..|shapes|] == shapes;
  }

  // ---------------------------------------------------------------------
  // template_matching
  // ---------------------------------------------------------------------

  /** minMaxLoc's peak score and location for one template scale. */
  datatype Sample = Sample(score: real, loc: Point)

  datatype Location = Unset | At(p: Point)

  /** The best_match dictionary; `scale` is the index of the scale. */
  datatype MatchResult = MatchResult(value: real, location: Location, scale: int)

  /** The initial dictionary {"value": -1, "location": -1, "scale": -1}. */
  const NoMatch: MatchResult := MatchResult(-1.0, Unset, -1)

  /** template_matching's loop over the scales: keeps the first sample with
      the strictly best score above the threshold. */
  method TemplateMatching(samples: seq<Sample>) returns (best: MatchResult)
    ensures best == NoMatch <==> forall k :: 0 <= k < |samples| ==> samples[k].score <= MatchThreshold
    ensures best != NoMatch ==>
      && 0 <= best.scale < |samples|
      && best.value == samples[best.scale].score
      && best.location == At(samples[best.scale].loc)
      && best.value > MatchThreshold
      && (forall k :: 0 <= k < |samples| ==> samples[k].score <= best.value)
      && (forall k :: 0 <= k < best.scale ==> samples[k].score < best.value)
  {
    best := NoMatch;
    for k := 0 to |samples|
      invariant best == NoMatch <==> forall j :: 0 <= j < k ==> samples[j].score <= MatchThreshold
      invariant best != NoMatch ==>
        && 0 <= best.scale < k
        && best.value == samples[best.scale].score
        && best.location == At(samples[best.scale].loc)
        && best.value > MatchThreshold
        && (forall j :: 0 <= j < k ==> samples[j].score <= best.value)
        && (forall j :: 0 <= j < best.scale ==> samples[j].score < best.value)
    {
      var sample := samples[k];
      if sample.score > best.value && sample.score > MatchThreshold {
        best := MatchResult(sample.score, At(sample.loc), k);
      }
    }
  }
}
