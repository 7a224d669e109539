/**
 * Colour-blob steering of src/scripts/pub.py.
 *
 * The colour mask, contour extraction, contour areas and image moments are
 * library outputs and enter as values; the ROS publisher is the log of the
 * messages handed to it.
 */
module RoverSteering {
  import opened Wrappers

  /** geometry_msgs/Twist; only linear.x and angular.z are ever set, the
      other four components keep the 0 of `Twist()`. */
  datatype Twist = Twist(linearX: real, angularZ: real)

  const Stop: Twist := Twist(0.0, 0.0)

  /** Forward speed while tracking. */
  const ForwardSpeed: real := 0.1

  /** Proportional gain from pixel error to angular velocity. */
  const Gain: real := 0.01

  /** Pixel error below which the target counts as centred. */
  const Deadband: real := 20.0

  /** One contour of the mask: cv2.contourArea and the moments m00, m10, m01. */
  datatype Contour = Contour(area: real, m00: real, m10: real, m01: real)

  function AbsReal(r: real): real
  {
    if r < 0.0 then -r else r
  }

  /** Python's int() on a float: truncation toward zero. */
  function TruncToInt(r: real): (n: int)
    ensures 0.0 <= r ==> n as real <= r < n as real + 1.0
    ensures r < 0.0 ==> n as real - 1.0 < r <= n as real
  {
    if r >= 0.0 then r.Floor else -((-r).Floor)
  }

  /** Index of the first contour of largest area (Python's max scans left to
      right and replaces its candidate only on a strictly larger key). */
  function FirstMaxIndex(contours: seq<Contour>): (k: nat)
    requires contours != []
    ensures k < |contours|
    ensures forall j :: 0 <= j < |contours| ==> contours[j].area <= contours[k].area
    ensures forall j :: 0 <= j < k ==> contours[j].area < contours[k].area
  {
    if |contours| == 1 then 0
    else
      var m := FirstMaxIndex(contours[..|contours| - 1]);
      if contours[|contours| - 1].area > contours[m].area then |contours| - 1 else m
  }

  /** get_max_contour: None for no contours, else the first of largest area. */
  function GetMaxContour(contours: seq<Contour>): (r: Option<Contour>)
    ensures r.None? <==> contours == []
    ensures r.Some? ==> forall c :: c in contours ==> c.area <= r.value.area
    ensures r.Some? ==> exists k :: 0 <= k < |contours| && contours[k] == r.value
                                    && forall j :: 0 <= j < k ==> contours[j].area < r.value.area
  {
    if contours == [] then None else Some(contours[FirstMaxIndex(contours)])
  }

  /** calculate_error: horizontal offset of the centroid from the image centre. */
  function CalculateError(cx: int, width: int): (e: real)
    ensures 2.0 * e == (2 * cx - width) as real
    ensures e < 0.0 <==> 2 * cx < width
    ensures e == 0.0 <==> 2 * cx == width
  {
    cx as real - width as real / 2.0
  }

  /** The three outcomes of the contour and moment checks of image_callback. */
  datatype Detection = NoObjects | NoValidContour | Target(cx: int, cy: int)

  function Track(contours: seq<Contour>): (d: Detection)
    ensures d == NoObjects <==> contours == []
    ensures d == NoValidContour <==> contours != [] && GetMaxContour(contours).value.m00 <= 0.0
    ensures d.Target? ==> GetMaxContour(contours).Some? && GetMaxContour(contours).value.m00 > 0.0
    ensures d.Target? ==> var c := GetMaxContour(contours).value;
                          d.cx == TruncToInt(c.m10 / c.m00) && d.cy == TruncToInt(c.m01 / c.m00)
  {
    match GetMaxContour(contours)
    case None => NoObjects
    case Some(c) =>
      if c.m00 > 0.0 then Target(TruncToInt(c.m10 / c.m00), TruncToInt(c.m01 / c.m00))
      else NoValidContour
  }

  /** The messages one image_callback call hands to the publisher. */
  function Commands(width: int, contours: seq<Contour>): (cmds: seq<Twist>)
    ensures |cmds| <= 2
    ensures cmds == [] <==> !Track(contours).Target?
    ensures Track(contours).Target? ==>
      var cx := Track(contours).cx;
      && cmds[0] == Twist(ForwardSpeed, -Gain * CalculateError(cx, width))
      && (cmds[0].angularZ > 0.0 <==> 2 * cx < width)
      && (|cmds| == 2 <==> -40 < 2 * cx - width < 40)
      && (|cmds| == 2 ==> cmds[1] == Stop)
  {
    match Track(contours)
    case Target(cx, _) =>
      var errorX := CalculateError(cx, width);
      var move := Twist(ForwardSpeed, -Gain * errorX);
      if AbsReal(errorX) < Deadband then [move, Stop] else [move]
    case _ => []
  }

  /** RoverController: the last Twist it built and everything it published. */
  class RoverController {
    var moveCmd: Twist
    var published: seq<Twist>

    /** moveCmd always equals the message published last (the zero Twist
        before anything was published). */
    ghost predicate Valid()
      reads this
    {
      if published == [] then moveCmd == Stop else published[|published| - 1] == moveCmd
    }

    constructor ()
      ensures Valid() && moveCmd == Stop && published == []
    {
      moveCmd := Stop;
      published := [];
    }

    /** stop_rover: zero both velocities and publish once. */
    method StopRover()
      modifies this
      ensures Valid()
      ensures moveCmd == Stop
      ensures published == old(published) + [Stop]
    {
      moveCmd := moveCmd.(linearX := 0.0);
      moveCmd := moveCmd.(angularZ := 0.0);
      published := published + [moveCmd];
    }

    /** image_callback, after the image conversion: publish a proportional
        steering command for the largest contour's centroid, then a stop if
        the centroid is within the deadband; publish nothing when there is
        no contour or its m00 is not positive. */
    method ImageCallback(width: nat, contours: seq<Contour>)
      requires Valid()
      modifies this
      ensures Valid()
      ensures published == old(published) + Commands(width, contours)
      ensures moveCmd == if Commands(width, contours) == [] then old(moveCmd)
                         else Commands(width, contours)[|Commands(width, contours)| - 1]
    {
      if contours != [] {
        var maxContour := GetMaxContour(contours).value;
        if maxContour.m00 > 0.0 {
          var cx := TruncToInt(maxContour.m10 / maxContour.m00);
          var errorX := CalculateError(cx, width);
          moveCmd := moveCmd.(linearX := ForwardSpeed);
          moveCmd := moveCmd.(angularZ := -Gain * errorX);
          published := published + [moveCmd];
          if AbsReal(errorX) < Deadband {
            StopRover();
          }
        }
      }
    }
  }
}
