/** The equipment route plot: positions normalised into the drawing's box, and the throttle on reported pings. */
module GpsRoute {
  import opened Common

  const PING_INTERVAL_MS := 30_000
  const VIEWBOX_SIZE := 300.0
  const PADDING := 20.0

  datatype Ping = Ping(lat: real, lng: real)

  /** A plotted point in tenths, as `toFixed(1)` prints it. */
  datatype Point = Point(x: int, y: int)

  function MinOf(xs: seq<real>): (m: real)
    requires xs != []
    ensures m in xs && forall x :: x in xs ==> m <= x
  {
    if |xs| == 1 then xs[0] else
      assert xs == [xs[0]] + xs[1..];
      var m := MinOf(xs[1..]);
      if xs[0] < m then xs[0] else m
  }

  function MaxOf(xs: seq<real>): (m: real)
    requires xs != []
    ensures m in xs && forall x :: x in xs ==> x <= m
  {
    if |xs| == 1 then xs[0] else
      assert xs == [xs[0]] + xs[1..];
      var m := MaxOf(xs[1..]);
      if m < xs[0] then xs[0] else m
  }

  /** `span || 1`. */
  function OrOne(span: real): real {
    if span == 0.0 then 1.0 else span
  }

  /** `v.toFixed(1)` in tenths: the nearest, the larger of two. */
  function Tenths(v: real): int {
    (v * 10.0 + 0.5).Floor
  }

  function Fraction(v: real, least: real, most: real): real {
    (v - least) / OrOne(most - least)
  }

  function PlotX(lng: real, minLng: real, maxLng: real): int {
    Tenths(PADDING + Fraction(lng, minLng, maxLng) * (VIEWBOX_SIZE - 2.0 * PADDING))
  }

  /** Latitude grows northward and y downward, so the fraction is flipped. */
  function PlotY(lat: real, minLat: real, maxLat: real): int {
    Tenths(PADDING + (1.0 - Fraction(lat, minLat, maxLat)) * (VIEWBOX_SIZE - 2.0 * PADDING))
  }

  function Lats(pings: seq<Ping>): seq<real> {
    seq(|pings|, i requires 0 <= i < |pings| => pings[i].lat)
  }

  function Lngs(pings: seq<Ping>): seq<real> {
    seq(|pings|, i requires 0 <= i < |pings| => pings[i].lng)
  }

  /** No route is drawn from fewer than two pings. */
  function Points(pings: seq<Ping>): Option<seq<Point>> {
    if |pings| <= 1 then None else
      var minLat, maxLat := MinOf(Lats(pings)), MaxOf(Lats(pings));
      var minLng, maxLng := MinOf(Lngs(pings)), MaxOf(Lngs(pings));
      Some(seq(|pings|, i requires 0 <= i < |pings| =>
                          Point(PlotX(pings[i].lng, minLng, maxLng), PlotY(pings[i].lat, minLat, maxLat))))
  }

  lemma DivideOrdered(a: real, b: real, d: real)
    requires a <= b && d > 0.0
    ensures a / d <= b / d
  {
    assert b / d - a / d == (b - a) / d;
  }

  /** The fraction is between 0 and 1, keeps order, and reaches both ends where there is any span. */
  lemma FractionOrder(v: real, w: real, least: real, most: real)
    requires least <= v <= w <= most
    ensures 0.0 <= Fraction(v, least, most) <= Fraction(w, least, most) <= 1.0
    ensures v == least ==> Fraction(v, least, most) == 0.0
    ensures w == most && least < most ==> Fraction(w, least, most) == 1.0
  {
    var d := OrOne(most - least);
    DivideOrdered(0.0, v - least, d);
    DivideOrdered(v - least, w - least, d);
    if least < most {
      DivideOrdered(w - least, most - least, d);
      assert (most - least) / d == 1.0;
    } else {
      assert w - least == 0.0;
    }
  }

  lemma TenthsMonotone(a: real, b: real)
    requires a <= b
    ensures Tenths(a) <= Tenths(b)
  {
  }

  /** Rounded plot coordinates, from the fractions. */
  lemma PlotOrder(v: real, w: real, least: real, most: real)
    requires least <= v <= w <= most
    ensures 200 <= PlotX(v, least, most) <= PlotX(w, least, most) <= 2800
    ensures 200 <= PlotY(w, least, most) <= PlotY(v, least, most) <= 2800
    ensures v == least ==> PlotX(v, least, most) == 200 && PlotY(v, least, most) == 2800
    ensures w == most && least < most ==> PlotX(w, least, most) == 2800 && PlotY(w, least, most) == 200
  {
    FractionOrder(v, w, least, most);
    var f, g := Fraction(v, least, most), Fraction(w, least, most);
    TenthsMonotone(20.0, PADDING + f * 260.0);
    TenthsMonotone(PADDING + f * 260.0, PADDING + g * 260.0);
    TenthsMonotone(PADDING + g * 260.0, 280.0);
    TenthsMonotone(20.0, PADDING + (1.0 - g) * 260.0);
    TenthsMonotone(PADDING + (1.0 - g) * 260.0, PADDING + (1.0 - f) * 260.0);
    TenthsMonotone(PADDING + (1.0 - f) * 260.0, 280.0);
  }

  /** Of any two pings of a drawn route: both are plotted within the padding after rounding, the more easterly no further
      left, the more northerly no lower. */
  lemma RouteInBox(pings: seq<Ping>, i: nat, j: nat)
    requires 2 <= |pings| && i < |pings| && j < |pings|
    ensures var pts := Points(pings).value;
            && |pts| == |pings|
            && 200 <= pts[i].x <= 2800 && 200 <= pts[i].y <= 2800
            && (pings[i].lng <= pings[j].lng ==> pts[i].x <= pts[j].x)
            && (pings[i].lat <= pings[j].lat ==> pts[j].y <= pts[i].y)
  {
    var lats, lngs := Lats(pings), Lngs(pings);
    assert lats[i] in lats && lats[j] in lats && lngs[i] in lngs && lngs[j] in lngs;
    PlotOrder(pings[i].lng, pings[i].lng, MinOf(lngs), MaxOf(lngs));
    PlotOrder(pings[i].lat, pings[i].lat, MinOf(lats), MaxOf(lats));
    if pings[i].lng <= pings[j].lng {
      PlotOrder(pings[i].lng, pings[j].lng, MinOf(lngs), MaxOf(lngs));
    }
    if pings[i].lat <= pings[j].lat {
      PlotOrder(pings[i].lat, pings[j].lat, MinOf(lats), MaxOf(lats));
    }
  }

  /** f is what the part is of the whole. */
  ghost predicate Share(f: real, part: real, whole: real) {
    f * whole == part
  }

  /** A coordinate in tenths is, to the nearest, as far into the 2600 between the edges as the part is into the whole. */
  ghost predicate InProportion(x: int, part: real, whole: real) {
    exists f :: Share(f, part, whole) && -0.5 <= x as real - 200.0 - 2600.0 * f <= 0.5
  }

  lemma FractionShare(v: real, least: real, most: real)
    requires least < most
    ensures Share(Fraction(v, least, most), v - least, most - least)
    ensures Share(1.0 - Fraction(v, least, most), most - v, most - least)
  {
    var f, d := Fraction(v, least, most), most - least;
    assert f * d == v - least;
    assert (1.0 - f) * d == d - f * d;
  }

  lemma TenthsOf(f: real)
    ensures -0.5 <= Tenths(PADDING + f * (VIEWBOX_SIZE - 2.0 * PADDING)) as real - 200.0 - 2600.0 * f <= 0.5
  {
  }

  lemma XInProportion(v: real, least: real, most: real, x: int)
    requires least < most && x == PlotX(v, least, most)
    ensures InProportion(x, v - least, most - least)
  {
    FractionShare(v, least, most);
    TenthsOf(Fraction(v, least, most));
  }

  lemma YInProportion(v: real, least: real, most: real, y: int)
    requires least < most && y == PlotY(v, least, most)
    ensures InProportion(y, most - v, most - least)
  {
    FractionShare(v, least, most);
    TenthsOf(1.0 - Fraction(v, least, most));
  }

  /** The plotted coordinates of one axis. */
  function Xs(lngs: seq<real>): (xs: seq<int>)
    requires lngs != []
    ensures |xs| == |lngs| && forall i :: 0 <= i < |lngs| ==> xs[i] == PlotX(lngs[i], MinOf(lngs), MaxOf(lngs))
  {
    var least, most := MinOf(lngs), MaxOf(lngs);
    seq(|lngs|, i requires 0 <= i < |lngs| => PlotX(lngs[i], least, most))
  }

  function Ys(lats: seq<real>): (ys: seq<int>)
    requires lats != []
    ensures |ys| == |lats| && forall i :: 0 <= i < |lats| ==> ys[i] == PlotY(lats[i], MinOf(lats), MaxOf(lats))
  {
    var least, most := MinOf(lats), MaxOf(lats);
    seq(|lats|, i requires 0 <= i < |lats| => PlotY(lats[i], least, most))
  }

  /** If the least value is plotted at one edge and, given any span, the greatest at the other, the first edge is reached,
      and the second exactly when there is a span. */
  lemma EdgesReached(vs: seq<real>, plotted: seq<int>, near: int, far: int)
    requires vs != [] && |plotted| == |vs| && near != far
    requires forall i :: 0 <= i < |vs| && vs[i] == MinOf(vs) ==> plotted[i] == near
    requires forall i :: 0 <= i < |vs| && vs[i] == MaxOf(vs) && MinOf(vs) < MaxOf(vs) ==> plotted[i] == far
    ensures near in plotted && (far in plotted <==> MinOf(vs) < MaxOf(vs))
  {
    var i :| 0 <= i < |vs| && vs[i] == MinOf(vs);
    var j :| 0 <= j < |vs| && vs[j] == MaxOf(vs);
    assert plotted[i] == near && plotted[j] in plotted;
    if far in plotted {
      var k :| 0 <= k < |vs| && plotted[k] == far;
      assert vs[k] in vs;
    }
  }

  lemma AxisFilled(vs: seq<real>)
    requires vs != []
    ensures 200 in Xs(vs) && (2800 in Xs(vs) <==> MinOf(vs) < MaxOf(vs))
    ensures 2800 in Ys(vs) && (200 in Ys(vs) <==> MinOf(vs) < MaxOf(vs))
  {
    PlotOrder(MinOf(vs), MaxOf(vs), MinOf(vs), MaxOf(vs));
    EdgesReached(vs, Xs(vs), 200, 2800);
    EdgesReached(vs, Ys(vs), 2800, 200);
  }

  lemma PointsByAxis(pings: seq<Ping>)
    requires 2 <= |pings|
    ensures var pts := Points(pings).value;
            && (forall x :: x in Xs(Lngs(pings)) <==> exists p :: p in pts && p.x == x)
            && (forall y :: y in Ys(Lats(pings)) <==> exists p :: p in pts && p.y == y)
  {
    var pts, xs, ys := Points(pings).value, Xs(Lngs(pings)), Ys(Lats(pings));
    assert |pts| == |xs| == |ys| && forall i :: 0 <= i < |pts| ==> pts[i] == Point(xs[i], ys[i]);
    forall x ensures x in xs <==> exists p :: p in pts && p.x == x {
      if x in xs {
        var i :| 0 <= i < |xs| && xs[i] == x;
        assert pts[i] in pts;
      }
    }
    forall y ensures y in ys <==> exists p :: p in pts && p.y == y {
      if y in ys {
        var i :| 0 <= i < |ys| && ys[i] == y;
        assert pts[i] in pts;
      }
    }
  }

  lemma PointAt(pings: seq<Ping>, i: nat)
    requires 2 <= |pings| && i < |pings|
    ensures var p := Points(pings).value[i];
            && p.x == PlotX(pings[i].lng, MinOf(Lngs(pings)), MaxOf(Lngs(pings)))
            && p.y == PlotY(pings[i].lat, MinOf(Lats(pings)), MaxOf(Lats(pings)))
  {
  }

  /** Between the edges every point of a drawn route is in proportion, on an axis that has a span: x to the longitude from the
      west, ... */
  lemma RouteXInProportion(pings: seq<Ping>, i: nat, west: real, east: real)
    requires 2 <= |pings| && i < |pings| && west == MinOf(Lngs(pings)) && east == MaxOf(Lngs(pings)) && west < east
    ensures InProportion(Points(pings).value[i].x, pings[i].lng - west, east - west)
  {
    PointAt(pings, i);
    XInProportion(pings[i].lng, west, east, Points(pings).value[i].x);
  }

  /** ... and y to the latitude from the north. */
  lemma RouteYInProportion(pings: seq<Ping>, i: nat, south: real, north: real)
    requires 2 <= |pings| && i < |pings| && south == MinOf(Lats(pings)) && north == MaxOf(Lats(pings)) && south < north
    ensures InProportion(Points(pings).value[i].y, north - pings[i].lat, north - south)
  {
    PointAt(pings, i);
    YInProportion(pings[i].lat, south, north, Points(pings).value[i].y);
  }

  /** The route fills the box: some ping sits on the left edge and some on the bottom edge; some on the right edge unless
      all share one longitude, and some on the top edge unless all share one latitude. */
  lemma RouteFillsBox(pings: seq<Ping>)
    requires 2 <= |pings|
    ensures var pts := Points(pings).value;
            && (exists p :: p in pts && p.x == 200)
            && (exists p :: p in pts && p.y == 2800)
            && ((exists p :: p in pts && p.x == 2800) <==> MinOf(Lngs(pings)) < MaxOf(Lngs(pings)))
            && ((exists p :: p in pts && p.y == 200) <==> MinOf(Lats(pings)) < MaxOf(Lats(pings)))
  {
    AxisFilled(Lngs(pings));
    AxisFilled(Lats(pings));
    PointsByAxis(pings);
  }

  // ----- the ping throttle -----

  /** The tracking callback's state: `lastSentAtRef`, with the times reported to it and those it posted. */
  class Tracker {
    var lastSentAt: int
    var sent: seq<int>
    ghost var reported: seq<int>

    ghost predicate Valid()
      reads this
    {
      sent == Throttled(reported, 0) && lastSentAt == LastSent(reported, 0)
    }

    constructor ()
      ensures Valid() && reported == []
    {
      lastSentAt, sent, reported := 0, [], [];
    }

    method OnPosition(now: int)
      requires Valid()
      modifies this
      ensures Valid() && reported == old(reported) + [now]
      ensures sent == if now - old(lastSentAt) < PING_INTERVAL_MS then old(sent) else old(sent) + [now]
    {
      ThrottledAppend(reported, now, 0);
      reported := reported + [now];
      if now - lastSentAt < PING_INTERVAL_MS {
        return;
      }
      lastSentAt := now;
      sent := sent + [now];
    }
  }

  /** The times posted out of those reported, after a post at `last`. */
  function Throttled(times: seq<int>, last: int): seq<int> {
    if times == [] then []
    else if times[0] - last < PING_INTERVAL_MS then Throttled(times[1..], last)
    else [times[0]] + Throttled(times[1..], times[0])
  }

  function LastSent(times: seq<int>, last: int): int {
    var sent := Throttled(times, last);
    if sent == [] then last else sent[|sent| - 1]
  }

  /** One more report is posted exactly when the interval has passed since the last post. */
  lemma {:induction false} ThrottledAppend(times: seq<int>, now: int, last: int)
    ensures Throttled(times + [now], last)
            == Throttled(times, last) + if now - LastSent(times, last) < PING_INTERVAL_MS then [] else [now]
  {
    var all := times + [now];
    if times == [] {
      assert all[1..] == [] && Throttled([], now) == [];
    } else {
      assert all[1..] == times[1..] + [now];
      ThrottledAppend(times[1..], now, if times[0] - last < PING_INTERVAL_MS then last else times[0]);
    }
  }

  /** At least the interval between `last` and the first, and from each to the next. */
  ghost predicate Spaced(times: seq<int>, last: int) {
    times == [] || (times[0] - last >= 30_000 && Spaced(times[1..], times[0]))
  }

  /** A choice of some of the reported times, in their order. */
  ghost predicate ChosenFrom(choice: seq<int>, times: seq<int>) {
    if choice == [] then true
    else times != [] && ((choice[0] == times[0] && ChosenFrom(choice[1..], times[1..])) || ChosenFrom(choice, times[1..]))
  }

  ghost predicate Ascending(times: seq<int>) {
    forall i, j :: 0 <= i < j < |times| ==> times[i] <= times[j]
  }

  /** What is posted is a spaced choice of the reported times, whatever the clock does. */
  lemma {:induction false} ThrottledSpaced(times: seq<int>, last: int)
    ensures Spaced(Throttled(times, last), last) && ChosenFrom(Throttled(times, last), times)
  {
    if times != [] {
      var next := if times[0] - last < PING_INTERVAL_MS then last else times[0];
      ThrottledSpaced(times[1..], next);
    }
  }

  lemma {:induction false} ChosenNotEarlier(choice: seq<int>, times: seq<int>)
    requires choice != [] && ChosenFrom(choice, times) && Ascending(times)
    ensures times[0] <= choice[0]
    decreases |times|
  {
    if choice[0] != times[0] || !ChosenFrom(choice[1..], times[1..]) {
      ChosenNotEarlier(choice, times[1..]);
    }
  }

  /** With a clock that never goes back, no spaced choice of the reported times has more posts. */
  lemma {:induction false} ThrottledMost(times: seq<int>, last: int, choice: seq<int>)
    requires Ascending(times) && ChosenFrom(choice, times) && Spaced(choice, last)
    ensures |choice| <= |Throttled(times, last)|
    decreases |times|
  {
    if choice != [] {
      ChosenNotEarlier(choice, times);
      if times[0] - last < PING_INTERVAL_MS {
        ThrottledMost(times[1..], last, choice);
      } else {
        RestSpaced(choice, times[0]);
        RestChosen(choice, times);
        ThrottledMost(times[1..], times[0], choice[1..]);
      }
    }
  }

  lemma RestSpaced(choice: seq<int>, from: int)
    requires choice != [] && Spaced(choice[1..], choice[0]) && from <= choice[0]
    ensures Spaced(choice[1..], from)
  {
  }

  lemma {:induction false} RestChosen(choice: seq<int>, times: seq<int>)
    requires choice != [] && ChosenFrom(choice, times)
    ensures ChosenFrom(choice[1..], times[1..])
    decreases |times|
  {
    if !(choice[0] == times[0] && ChosenFrom(choice[1..], times[1..])) {
      RestChosen(choice, times[1..]);
      ChosenWider(choice[1..], times[1..]);
    }
  }

  /** A choice from the tail is a choice from the whole. */
  lemma ChosenWider(choice: seq<int>, times: seq<int>)
    requires times != [] && ChosenFrom(choice, times[1..])
    ensures ChosenFrom(choice, times)
  {
  }
}
