/**
 The state timeline (web/nasa_web/static/js/charts.js): consecutive samples with the same state become one
 segment. Times are real seconds.
 */
module Timeline {
  import opened Basics
  import opened Storage

  datatype Segment = Segment(state: string, a: real, b: real)

  function StateName(text: Option<string>): string {
    if text.Some? then text.value else "\U{2013}"
  }

  function Distance(x: real, y: real): real { if x >= y then x - y else y - x }

  function From(points: seq<Point>, start: real, i: nat): real
    requires i < |points|
  {
    Max(start, points[i].t as real)
  }

  function Until(points: seq<Point>, end: real, now: real, i: nat): real
    requires i < |points|
  {
    Min(end, if i + 1 < |points| then points[i + 1].t as real else Min(end, now))
  }

  /** One turn of the loop. */
  function Extend(segs: seq<Segment>, state: string, a: real, b: real): seq<Segment> {
    if b <= a then segs
    else if segs != [] && Last(segs).state == state && Distance(Last(segs).b, a) < 1.0
    then segs[|segs| - 1 := Last(segs).(b := b)]
    else segs + [Segment(state, a, b)]
  }

  /** A missing state is shown as a dash. */
  lemma StateNames(text: string)
    ensures StateName(Some(text)) == text && StateName(None) == "\U{2013}"
  {
  }

  /** An empty stretch is skipped; one in the last segment's state that starts less than a second from its end prolongs it; any other opens a segment. */
  lemma ExtendLaw(segs: seq<Segment>, last: Segment, state: string, a: real, b: real)
    ensures b <= a ==> Extend(segs, state, a, b) == segs
    ensures a < b ==> Extend([], state, a, b) == [Segment(state, a, b)]
    ensures a < b && last.state == state && -1.0 < last.b - a < 1.0 ==>
              Extend(segs + [last], state, a, b) == segs + [Segment(state, last.a, b)]
    ensures a < b && !(last.state == state && -1.0 < last.b - a < 1.0) ==>
              Extend(segs + [last], state, a, b) == segs + [last, Segment(state, a, b)]
  {
    assert (segs + [last])[|segs|] == last;
  }

  /** The segments after the first `i` samples. */
  function Segments(points: seq<Point>, start: real, end: real, now: real, i: nat): seq<Segment>
    requires i <= |points|
  {
    if i == 0 then []
    else Extend(Segments(points, start, end, now, i - 1), StateName(points[i - 1].text),
                From(points, start, i - 1), Until(points, end, now, i - 1))
  }

  method DrawTimeline(points: seq<Point>, start: real, end: real, now: real) returns (segs: seq<Segment>)
    ensures segs == Segments(points, start, end, now, |points|)
  {
    segs := [];
    var i := 0;
    while i < |points|
      invariant 0 <= i <= |points| && segs == Segments(points, start, end, now, i)
    {
      var state := StateName(points[i].text);
      var a := Max(start, points[i].t as real);
      var b := Min(end, if i + 1 < |points| then points[i + 1].t as real else Min(end, now));
      i := i + 1;
      if b <= a {
        continue;
      }
      if segs != [] && Last(segs).state == state && Distance(Last(segs).b, a) < 1.0 {
        segs := segs[|segs| - 1 := Last(segs).(b := b)];
      } else {
        segs := segs + [Segment(state, a, b)];
      }
    }
  }

  // ---------------------------------------------------------------- what is drawn

  /** Samples in order, none behind the end of the drawing, the last not in the future. */
  predicate InOrder(points: seq<Point>, end: real, now: real) {
    && (forall i, j :: 0 <= i < j < |points| ==> points[i].t <= points[j].t)
    && (forall i :: 0 <= i < |points| ==> points[i].t as real <= end)
    && (|points| >= 2 ==> Last(points).t as real <= now)
  }

  /** The text of the last sample at or before `x`. */
  function TextOfPoints(points: seq<Point>, x: real): Option<string> {
    if points == [] then None
    else if Last(points).t as real <= x then Last(points).text
    else TextOfPoints(points[..|points| - 1], x)
  }

  /** Nonempty segments from `lo` to `hi` without gaps or overlaps, neighbours in different states. */
  predicate Tiles(segs: seq<Segment>, lo: real, hi: real) {
    && segs != [] && segs[0].a == lo && Last(segs).b == hi
    && (forall i :: 0 <= i < |segs| ==> segs[i].a < segs[i].b)
    && (forall i :: 0 < i < |segs| ==> segs[i].a == segs[i - 1].b && segs[i].state != segs[i - 1].state)
  }

  predicate Covers(s: Segment, x: real) {
    s.a <= x < s.b
  }

  /** Some segment covers `x` and shows the state of the last sample at or before it. */
  ghost predicate ShownAt(segs: seq<Segment>, points: seq<Point>, x: real) {
    exists i :: 0 <= i < |segs| && Covers(segs[i], x) && segs[i].state == StateName(TextOfPoints(points, x))
  }

  /** Up to `hi`, the segment at an instant shows the state of the last sample at or before it. */
  ghost predicate Shows(segs: seq<Segment>, points: seq<Point>, lo: real, hi: real) {
    forall x: real :: lo <= x < hi ==> ShownAt(segs, points, x)
  }

  lemma {:induction false} TextOfPrefix(points: seq<Point>, i: nat, x: real)
    requires 0 < i <= |points|
    requires forall k, l :: 0 <= k < l < |points| ==> points[k].t <= points[l].t
    requires points[i - 1].t as real <= x && (i < |points| ==> x < points[i].t as real)
    ensures TextOfPoints(points, x) == points[i - 1].text
    decreases |points|
  {
    if i < |points| {
      assert points[i].t <= Last(points).t;
      var init := points[..|points| - 1];
      assert init[i - 1] == points[i - 1] && (i < |init| ==> init[i] == points[i]);
      TextOfPrefix(init, i, x);
    }
  }

  /** `segs'` shows what `segs` shows, up to `a`, and `state` from there to `b`. */
  predicate Extends(segs: seq<Segment>, segs': seq<Segment>, state: string, lo: real, a: real, b: real) {
    && Tiles(segs', lo, b) && segs' != []
    && Last(segs').a <= a && Last(segs').b == b && Last(segs').state == state
    && |segs| <= |segs'|
    && forall i :: 0 <= i < |segs| ==>
         segs'[i].state == segs[i].state && segs'[i].a == segs[i].a && segs[i].b <= segs'[i].b
  }

  lemma NewSegment(segs: seq<Segment>, state: string, lo: real, a: real, b: real)
    requires a < b && (if segs == [] then a == lo else Tiles(segs, lo, a) && Last(segs).state != state)
    ensures Extends(segs, segs + [Segment(state, a, b)], state, lo, a, b)
  {
  }

  lemma LongerSegment(segs: seq<Segment>, lo: real, a: real, b: real)
    requires a < b && Tiles(segs, lo, a)
    ensures Extends(segs, segs[|segs| - 1 := Last(segs).(b := b)], Last(segs).state, lo, a, b)
  {
  }

  lemma EndsWhereDrawn(segs: seq<Segment>, lo: real, a: real)
    requires Tiles(segs, lo, a)
    ensures segs != [] && Last(segs).b == a
  {
  }

  /** Appending a stretch `a..b` of one state to what is drawn up to `a`. */
  lemma ExtendTiles(segs: seq<Segment>, state: string, lo: real, a: real, b: real)
    requires a < b && (if segs == [] then a == lo else Tiles(segs, lo, a))
    ensures Extends(segs, Extend(segs, state, a, b), state, lo, a, b)
  {
    hide Extends, Tiles;
    if segs != [] {
      EndsWhereDrawn(segs, lo, a);
    }
    if segs != [] && Last(segs).state == state {
      LongerSegment(segs, lo, a, b);
    } else {
      NewSegment(segs, state, lo, a, b);
    }
  }

  lemma ExtendShows(points: seq<Point>, i: nat, segs: seq<Segment>, lo: real, a: real, b: real)
    requires i < |points| && forall k, l :: 0 <= k < l < |points| ==> points[k].t <= points[l].t
    requires a < b && (if segs == [] then a == lo else Tiles(segs, lo, a) && Shows(segs, points, lo, a))
    requires points[i].t as real <= a && (i + 1 < |points| ==> b <= points[i + 1].t as real)
    ensures Shows(Extend(segs, StateName(points[i].text), a, b), points, lo, b)
  {
    hide Extend, TextOfPoints, Tiles;
    var segs' := Extend(segs, StateName(points[i].text), a, b);
    ExtendTiles(segs, StateName(points[i].text), lo, a, b);
    forall x: real | lo <= x < b ensures ShownAt(segs', points, x) {
      if x < a {
        assert ShownAt(segs, points, x);
        var k :| 0 <= k < |segs| && Covers(segs[k], x) && segs[k].state == StateName(TextOfPoints(points, x));
        assert Covers(segs'[k], x);
      } else {
        TextOfPrefix(points, i + 1, x);
        assert Covers(segs'[|segs'| - 1], x);
      }
    }
  }

  /** After `i` samples, the drawing reaches from the first sample to the next one. */
  ghost predicate Drawn(points: seq<Point>, start: real, end: real, now: real, i: nat)
    requires 0 < i <= |points|
  {
    var segs, lo, hi := Segments(points, start, end, now, i), From(points, start, 0), Until(points, end, now, i - 1);
    if hi <= lo then segs == [] else segs != [] && Tiles(segs, lo, hi) && Shows(segs, points, lo, hi)
  }

  lemma {:induction false} DrawnStep(points: seq<Point>, start: real, end: real, now: real, i: nat)
    requires 0 < i <= |points| && InOrder(points, end, now)
    ensures Drawn(points, start, end, now, i)
  {
    hide Shows, Tiles, TextOfPoints, Extend;
    var lo, a, b := From(points, start, 0), From(points, start, i - 1), Until(points, end, now, i - 1);
    var segs := Segments(points, start, end, now, i - 1);
    if i > 1 {
      DrawnStep(points, start, end, now, i - 1);
      assert Until(points, end, now, i - 2) == points[i - 1].t as real;
      assert points[0].t <= points[i - 1].t;
    }
    if b <= a {
      SkipKeeps(segs, StateName(points[i - 1].text), a, b);
    } else {
      ExtendShows(points, i - 1, segs, lo, a, b);
      ExtendTiles(segs, StateName(points[i - 1].text), lo, a, b);
    }
  }

  lemma SkipKeeps(segs: seq<Segment>, state: string, a: real, b: real)
    requires b <= a
    ensures Extend(segs, state, a, b) == segs
  {
  }

  /** The timeline draws the step function of its samples between the first sample and the end or now. */
  lemma TimelineDrawsSteps(points: seq<Point>, start: real, end: real, now: real)
    requires points != [] && InOrder(points, end, now)
    ensures var segs := Segments(points, start, end, now, |points|);
            var lo, hi := Max(start, points[0].t as real), Min(end, now);
            if hi <= lo then segs == [] else Tiles(segs, lo, hi) && Shows(segs, points, lo, hi)
  {
    hide Shows, Tiles, Segments;
    DrawnStep(points, start, end, now, |points|);
  }
}
