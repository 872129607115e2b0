/**
  The geometry model of the emergency graph: points on the city map, the
  Euclidean distance between them, and the conversion of a distance into an
  estimated travel time in minutes.

  The square root taken by the source is not computed: a distance is any
  non-negative real whose square is the squared distance (IsDistance), and
  callers supply it.
 */
module Geometry {
  import opened Wrappers

  /** A coordinate pair on the map; one unit is about two kilometres. */
  datatype Point = Point(x: real, y: real)

  /** Kilometres per coordinate unit. */
  const KmPerUnit: real := 2.0
  /** Average urban speed, in km/h. */
  const SpeedKmh: real := 30.0
  /** The travel-time floor, in minutes. */
  const MinMinutes: real := 3.0
  /** Share of the suggested time below which a declared route time is raised. */
  const FloorShare: real := 0.8

  function SquaredDistance(a: Point, b: Point): (s: real)
    ensures s >= 0.0
  {
    (b.x - a.x) * (b.x - a.x) + (b.y - a.y) * (b.y - a.y)
  }

  /** d is the Euclidean distance between a and b. */
  ghost predicate IsDistance(d: real, a: Point, b: Point)
  {
    d >= 0.0 && d * d == SquaredDistance(a, b)
  }

  /** Two non-negative reals with the same square are equal. */
  lemma SquareRootUnique(d1: real, d2: real)
    requires d1 >= 0.0 && d2 >= 0.0 && d1 * d1 == d2 * d2
    ensures d1 == d2
  {
    assert (d1 - d2) * (d1 + d2) == d1 * d1 - d2 * d2;
    if d1 + d2 == 0.0 {
      assert d1 == 0.0 && d2 == 0.0;
    } else {
      assert d1 + d2 > 0.0;
      assert (d1 - d2) * (d1 + d2) == 0.0;
      assert d1 - d2 == (d1 - d2) * (d1 + d2) / (d1 + d2);
    }
  }

  /** The distance does not depend on the order of the two points. */
  lemma DistanceSymmetric(d1: real, d2: real, a: Point, b: Point)
    requires IsDistance(d1, a, b) && IsDistance(d2, b, a)
    ensures d1 == d2
  {
    assert SquaredDistance(a, b) == SquaredDistance(b, a) by {
      assert (b.x - a.x) * (b.x - a.x) == (a.x - b.x) * (a.x - b.x);
      assert (b.y - a.y) * (b.y - a.y) == (a.y - b.y) * (a.y - b.y);
    }
    SquareRootUnique(d1, d2);
  }

  /**
    The travel time, in minutes, for a distance in coordinate units:
    distance * 2 km / 30 km/h * 60 min/h, never below three minutes.
   */
  function TimeForDistance(d: real): (t: real)
    ensures t >= MinMinutes && t >= 4.0 * d
    ensures t == MinMinutes || t == 4.0 * d
  {
    var km := d * KmPerUnit;
    var hours := km / SpeedKmh;
    var minutes := hours * 60.0;
    if minutes > MinMinutes then minutes else MinMinutes
  }

  /** A longer distance never gives a shorter time estimate. */
  lemma TimeMonotone(d1: real, d2: real)
    requires d1 <= d2
    ensures TimeForDistance(d1) <= TimeForDistance(d2)
  {
  }

  /** The time estimate between two points is the same in both directions. */
  lemma TimeSymmetric(d1: real, d2: real, a: Point, b: Point)
    requires IsDistance(d1, a, b) && IsDistance(d2, b, a)
    ensures TimeForDistance(d1) == TimeForDistance(d2)
  {
    DistanceSymmetric(d1, d2, a, b);
  }

  /**
    The base time stored for a route: the declared time (or, when none is
    declared, the time estimated from the distance), raised to at least 80%
    of the estimated time.
   */
  function StoredTime(declared: Option<real>, d: real): (t: real)
    ensures t >= FloorShare * TimeForDistance(d)
    ensures t >= FloorShare * MinMinutes
    ensures declared.Some? ==> t >= declared.value
    ensures declared.Some? ==> t == declared.value || t == FloorShare * TimeForDistance(d)
    ensures declared.None? ==> t == TimeForDistance(d)
  {
    var suggested := TimeForDistance(d);
    var base := if declared.None? then suggested else declared.value;
    if FloorShare * suggested > base then FloorShare * suggested else base
  }
}
