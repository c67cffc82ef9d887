/** Beacon exclusion zone (day 15): every sensor rules out the cells within
    the Manhattan distance of its closest beacon; one row is scanned for the
    cells ruled out, and a square is scanned for the one cell no sensor
    rules out. */
module Day15 {
  import opened Common

  datatype Point = Point(x: int, y: int)

  /** `Point::distance`: the Manhattan distance. */
  function Distance(a: Point, b: Point): (d: nat)
    ensures d == Abs(a.x - b.x) + Abs(a.y - b.y)
    ensures d == 0 <==> a == b
  {
    Abs(a.x - b.x) + Abs(a.y - b.y)
  }

  /** The distance does not depend on the order of the points. */
  lemma DistanceSymmetric(a: Point, b: Point)
    ensures Distance(a, b) == Distance(b, a)
  {
  }

  datatype SensorData = SensorData(sensor: Point, closestBeacon: Point, radius: int)

  /** A sensor's radius is the distance to its closest beacon. */
  function MakeSensor(sensor: Point, beacon: Point): (s: SensorData)
    ensures s.sensor == sensor && s.closestBeacon == beacon
    ensures s.radius == Distance(sensor, beacon) && s.radius >= 0
  {
    SensorData(sensor, beacon, Distance(sensor, beacon))
  }

  predicate WellFormed(s: SensorData)
  {
    s.radius == Distance(s.sensor, s.closestBeacon)
  }

  /** A closed range of columns; `first <= last` for every cover. */
  datatype Interval = Interval(first: int, last: int)

  predicate InInterval(x: int, i: Interval) { i.first <= x <= i.last }

  /** `cover_on`: the columns of row `line` within the sensor's radius,
      `radius - |sensor.y - line|` to either side of the sensor's column, if
      that is not negative. */
  function CoverOn(s: SensorData, line: int): Option<Interval>
  {
    var radiusOnLine := s.radius - Abs(s.sensor.y - line);
    if radiusOnLine >= 0 then Some(Interval(s.sensor.x - radiusOnLine, s.sensor.x + radiusOnLine))
    else None
  }

  /** A cell of the row is in the cover exactly when it is within the
      sensor's radius; the cover exists exactly when some cell of the row is. */
  lemma CoverMeaning(s: SensorData, line: int, x: int)
    ensures CoverOn(s, line).Some? <==> Distance(s.sensor, Point(s.sensor.x, line)) <= s.radius
    ensures CoverOn(s, line).Some? ==> CoverOn(s, line).value.first <= CoverOn(s, line).value.last
    ensures (CoverOn(s, line).Some? && InInterval(x, CoverOn(s, line).value))
      <==> Distance(s.sensor, Point(x, line)) <= s.radius
  {
  }

  /** A well-formed sensor's own beacon is always inside its cover. */
  lemma BeaconCovered(s: SensorData)
    requires WellFormed(s)
    ensures CoverOn(s, s.closestBeacon.y).Some?
    ensures InInterval(s.closestBeacon.x, CoverOn(s, s.closestBeacon.y).value)
  {
    CoverMeaning(s, s.closestBeacon.y, s.closestBeacon.x);
  }

  // ---------------------------------------------------------------------------
  // Part 1: the cells of one row ruled out

  /** The columns of the beacons in row `line`. */
  function BeaconsOn(data: seq<SensorData>, line: int): set<int>
  {
    set i | 0 <= i < |data| && data[i].closestBeacon.y == line :: data[i].closestBeacon.x
  }

  /** The columns from `a` to `b`, both included. */
  function Range(a: int, b: int): (r: set<int>)
    ensures forall x :: x in r <==> a <= x <= b
    decreases b - a
  {
    if a > b then {} else Range(a, b - 1) + {b}
  }

  /** The columns of row `line` some sensor's cover includes, less those
      holding a beacon. */
  function Covered(data: seq<SensorData>, line: int, beacons: set<int>): set<int>
  {
    if data == [] then {}
    else
      var front := Covered(data[..|data| - 1], line, beacons);
      match CoverOn(data[|data| - 1], line)
      case None => front
      case Some(i) => front + (Range(i.first, i.last) - beacons)
  }

  /** A column is counted exactly when it holds no beacon and some sensor is
      within its radius of it. */
  lemma {:induction false} CoveredMeaning(data: seq<SensorData>, line: int, beacons: set<int>, x: int)
    ensures x in Covered(data, line, beacons)
      <==> x !in beacons && exists k :: 0 <= k < |data| && Distance(data[k].sensor, Point(x, line)) <= data[k].radius
  {
    if data != [] {
      var n := |data| - 1;
      CoveredMeaning(data[..n], line, beacons, x);
      CoverMeaning(data[n], line, x);
      if x !in beacons && Distance(data[n].sensor, Point(x, line)) > data[n].radius {
        if exists k :: 0 <= k < |data| && Distance(data[k].sensor, Point(x, line)) <= data[k].radius {
          var k :| 0 <= k < |data| && Distance(data[k].sensor, Point(x, line)) <= data[k].radius;
          assert k < n && data[..n][k] == data[k];
        }
      }
      if x !in beacons && exists k :: 0 <= k < n && Distance(data[..n][k].sensor, Point(x, line)) <= data[..n][k].radius {
        var k :| 0 <= k < n && Distance(data[..n][k].sensor, Point(x, line)) <= data[..n][k].radius;
        assert data[..n][k] == data[k];
      }
    }
  }

  /** `covered_count`: insert every uncovered-by-beacon column of every
      cover into a set, and count the set. */
  method CoveredCount(data: seq<SensorData>, line: int) returns (count: nat)
    ensures count == |Covered(data, line, BeaconsOn(data, line))|
  {
    var covered: set<int> := {};
    var beacons := BeaconsOn(data, line);
    for k := 0 to |data|
      invariant covered == Covered(data[..k], line, beacons)
    {
      assert data[..k + 1][..k] == data[..k];
      var cover := CoverOn(data[k], line);
      if cover.Some? {
        covered := InsertRange(covered, cover.value.first, cover.value.last + 1, beacons);
      }
    }
    assert data[..|data|] == data;
    return |covered|;
  }

  /** The inner loop of `covered_count`. */
  method InsertRange(covered: set<int>, first: int, end: int, beacons: set<int>) returns (covered': set<int>)
    ensures covered' == covered + (Range(first, end - 1) - beacons)
  {
    covered' := covered;
    var x := first;
    while x < end
      invariant (first <= x <= end) || (end <= first && x == first)
      invariant covered' == covered + (Range(first, x - 1) - beacons)
      decreases end - x
    {
      if x !in beacons {
        covered' := covered' + {x};
      }
      x := x + 1;
    }
    assert Range(first, end - 1) == Range(first, x - 1);
  }

  // ---------------------------------------------------------------------------
  // Part 2: the only cell no sensor rules out

  /** The covers of one row, in the order of the sensors. */
  function Covers(data: seq<SensorData>, line: int): (r: seq<Interval>)
    ensures forall i :: 0 <= i < |r| ==> r[i].first <= r[i].last
  {
    if data == [] then []
    else
      var front := Covers(data[..|data| - 1], line);
      match CoverOn(data[|data| - 1], line)
      case None => front
      case Some(i) => front + [i]
  }

  /** Every cover of the row comes from a sensor within reach of it, and
      every sensor within reach contributes its cover. */
  lemma {:induction false} CoversMeaning(data: seq<SensorData>, line: int, x: int)
    ensures (exists i :: 0 <= i < |Covers(data, line)| && InInterval(x, Covers(data, line)[i]))
      <==> exists k :: 0 <= k < |data| && Distance(data[k].sensor, Point(x, line)) <= data[k].radius
  {
    if data != [] {
      var n := |data| - 1;
      var front := Covers(data[..n], line);
      var all := Covers(data, line);
      CoversMeaning(data[..n], line, x);
      CoverMeaning(data[n], line, x);
      assert forall i :: 0 <= i < |front| ==> all[i] == front[i];
      if exists k :: 0 <= k < |data| && Distance(data[k].sensor, Point(x, line)) <= data[k].radius {
        var k :| 0 <= k < |data| && Distance(data[k].sensor, Point(x, line)) <= data[k].radius;
        if k < n {
          assert data[..n][k] == data[k];
        } else {
          assert InInterval(x, all[|all| - 1]);
        }
      }
      if exists i :: 0 <= i < |all| && InInterval(x, all[i]) {
        var i :| 0 <= i < |all| && InInterval(x, all[i]);
        if i < |front| {
          assert InInterval(x, front[i]);
          var k :| 0 <= k < n && Distance(data[..n][k].sensor, Point(x, line)) <= data[..n][k].radius;
          assert data[..n][k] == data[k];
        } else {
          assert Distance(data[n].sensor, Point(x, line)) <= data[n].radius;
        }
      }
    }
  }

  predicate SortedByFirst(s: seq<Interval>)
  {
    forall i, j :: 0 <= i < j < |s| ==> s[i].first <= s[j].first
  }

  function InsertByFirst(v: Interval, s: seq<Interval>): (r: seq<Interval>)
    requires SortedByFirst(s)
    ensures SortedByFirst(r) && multiset(r) == multiset(s) + multiset{v}
    ensures |r| > 0 && (r[0] == v || (|s| > 0 && r[0] == s[0]))
  {
    if s == [] || v.first <= s[0].first then [v] + s
    else
      var rest := InsertByFirst(v, s[1..]);
      assert s == [s[0]] + s[1..];
      [s[0]] + rest
  }

  /** The covers ordered by their first column, as `sort_unstable_by` does
      (which order covers with the same first column come in does not change
      the result). */
  function SortByFirst(s: seq<Interval>): (r: seq<Interval>)
    ensures SortedByFirst(r) && multiset(r) == multiset(s)
  {
    if s == [] then []
    else
      assert s == s[..|s| - 1] + [s[|s| - 1]];
      InsertByFirst(s[|s| - 1], SortByFirst(s[..|s| - 1]))
  }

  /** The columns from `a` up to, not including, `b` that hold no beacon. */
  function Gap(a: int, b: int, beacons: set<int>): (r: seq<int>)
    ensures forall i :: 0 <= i < |r| ==> a <= r[i] < b && r[i] !in beacons
    decreases b - a
  {
    if a >= b then []
    else if a in beacons then Gap(a + 1, b, beacons)
    else [a] + Gap(a + 1, b, beacons)
  }

  /** The columns reported for one row: walking the sorted covers, the
      beacon-free columns between the furthest column covered so far
      (`nextPossible`) and the next cover's first column, stopping once that
      passes `maxXY`. */
  function LineCandidates(sorted: seq<Interval>, nextPossible: int, beacons: set<int>, maxXY: int): seq<int>
  {
    if sorted == [] || nextPossible > maxXY then []
    else
      Gap(nextPossible, sorted[0].first, beacons)
        + LineCandidates(sorted[1..], Max(nextPossible, sorted[0].last + 1), beacons, maxXY)
  }

  /** Every reported column holds no beacon, is at least `nextPossible`, and
      lies outside every one of the sorted covers whose last column is below
      `nextPossible` or that comes from the list. */
  lemma {:induction false} LineCandidatesUncovered(sorted: seq<Interval>, nextPossible: int, beacons: set<int>, maxXY: int)
    requires SortedByFirst(sorted)
    ensures forall c :: c in LineCandidates(sorted, nextPossible, beacons, maxXY) ==>
      (c !in beacons && nextPossible <= c && forall i :: 0 <= i < |sorted| ==> !InInterval(c, sorted[i]))
  {
    if sorted != [] && nextPossible <= maxXY {
      var rest := sorted[1..];
      var np' := Max(nextPossible, sorted[0].last + 1);
      LineCandidatesUncovered(rest, np', beacons, maxXY);
      var gap := Gap(nextPossible, sorted[0].first, beacons);
      forall c | c in LineCandidates(sorted, nextPossible, beacons, maxXY)
        ensures c !in beacons && nextPossible <= c && forall i :: 0 <= i < |sorted| ==> !InInterval(c, sorted[i])
      {
        if c in gap {
          forall i | 0 <= i < |sorted|
            ensures !InInterval(c, sorted[i])
          {
            assert sorted[0].first <= sorted[i].first;
          }
        } else {
          assert c in LineCandidates(rest, np', beacons, maxXY);
          forall i | 0 <= i < |sorted|
            ensures !InInterval(c, sorted[i])
          {
            if i > 0 {
              assert sorted[i] == rest[i - 1];
            }
          }
        }
      }
    }
  }

  /** The beacon-free gaps of row `y` within the covers. */
  function RowCandidates(data: seq<SensorData>, y: int, maxXY: int): seq<int>
  {
    LineCandidates(SortByFirst(Covers(data, y)), 0, BeaconsOn(data, y), maxXY)
  }

  /** The cells of row `y` at the columns `xs`. */
  function RowPoints(xs: seq<int>, y: int): (r: seq<Point>)
    ensures |r| == |xs| && forall i :: 0 <= i < |xs| ==> r[i] == Point(xs[i], y)
  {
    seq(|xs|, i requires 0 <= i < |xs| => Point(xs[i], y))
  }

  /** The cells reported for rows `y` to `maxXY`, row by row. */
  function Candidates(data: seq<SensorData>, y: int, maxXY: int): seq<Point>
    decreases maxXY + 1 - y
  {
    if y > maxXY then []
    else RowPoints(RowCandidates(data, y, maxXY), y) + Candidates(data, y + 1, maxXY)
  }

  /** `find_only_sender`: the cell when exactly one is reported; a second
      report or none at all is a panic (None). */
  function OnlySender(data: seq<SensorData>, maxXY: int): Option<Point>
  {
    var cs := Candidates(data, 0, maxXY);
    if |cs| == 1 then Some(cs[0]) else None
  }

  /** Every column reported for row `y` is a beacon-free column no sensor
      reaches. */
  lemma RowCandidatesUncovered(data: seq<SensorData>, y: int, maxXY: int)
    ensures forall x :: x in RowCandidates(data, y, maxXY) ==>
      && 0 <= x && x !in BeaconsOn(data, y)
      && forall k :: 0 <= k < |data| ==> Distance(data[k].sensor, Point(x, y)) > data[k].radius
  {
    var covers := Covers(data, y);
    var sorted := SortByFirst(covers);
    LineCandidatesUncovered(sorted, 0, BeaconsOn(data, y), maxXY);
    forall x | x in RowCandidates(data, y, maxXY)
      ensures forall k :: 0 <= k < |data| ==> Distance(data[k].sensor, Point(x, y)) > data[k].radius
    {
      forall j | 0 <= j < |covers|
        ensures !InInterval(x, covers[j])
      {
        assert covers[j] in multiset(covers);
        assert covers[j] in sorted;
      }
      CoversMeaning(data, y, x);
    }
  }

  /** The rows from `y` on: the cells of row `y`, then the later rows. */
  lemma CandidatesUnfold(data: seq<SensorData>, y: int, maxXY: int)
    requires y <= maxXY
    ensures Candidates(data, y, maxXY) == RowPoints(RowCandidates(data, y, maxXY), y) + Candidates(data, y + 1, maxXY)
  {
  }

  /** One more row scanned. */
  lemma CandidatesStep(data: seq<SensorData>, y: int, maxXY: int, done: seq<Point>)
    requires y <= maxXY && done + Candidates(data, y, maxXY) == Candidates(data, 0, maxXY)
    ensures var row := RowPoints(RowCandidates(data, y, maxXY), y);
      && (done + row) + Candidates(data, y + 1, maxXY) == Candidates(data, 0, maxXY)
      && |Candidates(data, 0, maxXY)| >= |done| + |row|
  {
    CandidatesUnfold(data, y, maxXY);
    ConcatShift(done, Candidates(data, y, maxXY), RowPoints(RowCandidates(data, y, maxXY), y),
      Candidates(data, y + 1, maxXY), Candidates(data, 0, maxXY));
  }

  /** Moving the head of the rest onto what is done. */
  lemma ConcatShift<T>(done: seq<T>, rest: seq<T>, head: seq<T>, tail: seq<T>, all: seq<T>)
    requires done + rest == all && rest == head + tail
    ensures (done + head) + tail == all && |all| == |done| + |head| + |tail|
  {
    assert (done + head) + tail == done + (head + tail);
  }

  lemma RowPointsAppend(a: seq<int>, b: seq<int>, y: int)
    ensures RowPoints(a + b, y) == RowPoints(a, y) + RowPoints(b, y)
  {
  }

  /** Every row scanned: what was recorded is the answer. */
  lemma CandidatesDone(data: seq<SensorData>, y: int, maxXY: int, done: seq<Point>, only: Option<Point>)
    requires y > maxXY && done + Candidates(data, y, maxXY) == Candidates(data, 0, maxXY)
    requires AsSeq(only) == done
    ensures only == OnlySender(data, maxXY)
  {
    assert done + [] == done;
  }

  /** Every reported cell is in the rows asked for, at a column no sensor
      reaches and that holds no beacon. */
  lemma {:induction false} CandidatesUncovered(data: seq<SensorData>, y: int, maxXY: int)
    ensures forall p :: p in Candidates(data, y, maxXY) ==>
      && y <= p.y <= maxXY && 0 <= p.x
      && p.x !in BeaconsOn(data, p.y)
      && forall k :: 0 <= k < |data| ==> Distance(data[k].sensor, p) > data[k].radius
    decreases maxXY + 1 - y
  {
    if y <= maxXY {
      CandidatesUncovered(data, y + 1, maxXY);
      CandidatesUnfold(data, y, maxXY);
      RowCandidatesUncovered(data, y, maxXY);
      var row := RowCandidates(data, y, maxXY);
      forall p | p in RowPoints(row, y)
        ensures p.y == y && p.x in row
      {
        var i :| 0 <= i < |row| && RowPoints(row, y)[i] == p;
      }
    }
  }

  /** The only cell found is one no sensor reaches. */
  lemma OnlySenderUncovered(data: seq<SensorData>, maxXY: int)
    requires OnlySender(data, maxXY).Some?
    ensures var p := OnlySender(data, maxXY).value;
      && 0 <= p.x && 0 <= p.y <= maxXY
      && forall k :: 0 <= k < |data| ==> Distance(data[k].sensor, p) > data[k].radius
  {
    CandidatesUncovered(data, 0, maxXY);
    assert Candidates(data, 0, maxXY)[0] in Candidates(data, 0, maxXY);
  }

  /** The covers of one row, collected by pushing in sensor order. */
  method CollectCovers(data: seq<SensorData>, y: int) returns (intervals: seq<Interval>)
    ensures intervals == Covers(data, y)
  {
    intervals := [];
    for k := 0 to |data|
      invariant intervals == Covers(data[..k], y)
    {
      assert data[..k + 1][..k] == data[..k];
      var cover := CoverOn(data[k], y);
      if cover.Some? {
        intervals := intervals + [cover.value];
      }
    }
    assert data[..|data|] == data;
  }

  /** `only_result` as a list of at most one cell. */
  function AsSeq(only: Option<Point>): (r: seq<Point>)
    ensures |r| <= 1
  {
    match only
    case None => []
    case Some(p) => [p]
  }

  /** Split a gap at any column between its ends. */
  lemma {:induction false} GapSplit(a: int, m: int, b: int, beacons: set<int>)
    requires a <= m <= b
    ensures Gap(a, b, beacons) == Gap(a, m, beacons) + Gap(m, b, beacons)
    decreases m - a
  {
    if a < m {
      GapSplit(a + 1, m, b, beacons);
      if a !in beacons {
        assert [a] + Gap(a + 1, m, beacons) + Gap(m, b, beacons) == [a] + (Gap(a + 1, m, beacons) + Gap(m, b, beacons));
      }
    } else {
      assert Gap(a, m, beacons) == [];
    }
  }

  /** The loop over one gap: a beacon-free column is recorded, and a second
      record is the source's panic (ok false). */
  method ScanGap(a: int, b: int, beacons: set<int>, y: int, only: Option<Point>) returns (ok: bool, only': Option<Point>)
    ensures var all := AsSeq(only) + RowPoints(Gap(a, b, beacons), y);
      && (ok <==> |all| <= 1)
      && (ok ==> AsSeq(only') == all)
  {
    only' := only;
    var x := a;
    while x < b
      invariant (a <= x <= b) || (b <= a && x == a)
      invariant AsSeq(only') == AsSeq(only) + RowPoints(Gap(a, x, beacons), y)
      decreases b - x
    {
      GapSplit(a, x, x + 1, beacons);
      if x !in beacons {
        if only'.Some? {
          GapSplit(a, x + 1, b, beacons);
          return false, only';
        }
        only' := Some(Point(x, y));
      }
      RowPointsAppend(Gap(a, x, beacons), Gap(x, x + 1, beacons), y);
      x := x + 1;
    }
    if b <= a {
      assert Gap(a, b, beacons) == [] == Gap(a, x, beacons);
    }
    return true, only';
  }

  /** The scan of one row's sorted covers, with `only` what earlier rows
      reported; false at a second report, the source's panic. */
  method ScanLine(sorted: seq<Interval>, beacons: set<int>, y: int, maxXY: int, only: Option<Point>)
    returns (ok: bool, only': Option<Point>)
    ensures var all := AsSeq(only) + RowPoints(LineCandidates(sorted, 0, beacons, maxXY), y);
      && (ok <==> |all| <= 1)
      && (ok ==> AsSeq(only') == all)
  {
    only' := only;
    var nextPossible := 0;
    ghost var done: seq<int> := [];
    var k := 0;
    while k < |sorted|
      invariant k <= |sorted|
      invariant done + LineCandidates(sorted[k..], nextPossible, beacons, maxXY) == LineCandidates(sorted, 0, beacons, maxXY)
      invariant AsSeq(only') == AsSeq(only) + RowPoints(done, y)
    {
      if nextPossible > maxXY {
        break;
      }
      var first, last := sorted[k].first, sorted[k].last;
      ghost var gap := Gap(nextPossible, first, beacons);
      assert sorted[k..][1..] == sorted[k + 1..];
      ghost var rest := LineCandidates(sorted[k + 1..], Max(nextPossible, last + 1), beacons, maxXY);
      assert LineCandidates(sorted[k..], nextPossible, beacons, maxXY) == gap + rest;
      ConcatShift(done, LineCandidates(sorted[k..], nextPossible, beacons, maxXY), gap, rest, LineCandidates(sorted, 0, beacons, maxXY));
      ok, only' := ScanGap(nextPossible, first, beacons, y, only');
      if !ok {
        return;
      }
      RowPointsAppend(done, gap, y);
      done := done + gap;
      nextPossible := Max(nextPossible, last + 1);
      k := k + 1;
    }
    assert done + [] == done;
    return true, only';
  }

  /** One row of `find_only_sender`: its beacons, its covers sorted by
      first column, and the scan. */
  method ScanRow(data: seq<SensorData>, y: int, maxXY: int, only: Option<Point>) returns (ok: bool, only': Option<Point>)
    ensures var all := AsSeq(only) + RowPoints(RowCandidates(data, y, maxXY), y);
      && (ok <==> |all| <= 1)
      && (ok ==> AsSeq(only') == all)
  {
    var beacons := BeaconsOn(data, y);
    var intervals := CollectCovers(data, y);
    var sorted := SortByFirst(intervals);
    ok, only' := ScanLine(sorted, beacons, y, maxXY, only);
  }

  /** `find_only_sender`: scan every row from 0 to `maxXY`. */
  method FindOnlySender(data: seq<SensorData>, maxXY: int) returns (r: Option<Point>)
    ensures r == OnlySender(data, maxXY)
  {
    var only: Option<Point> := None;
    ghost var done: seq<Point> := [];
    var y := 0;
    while y <= maxXY
      invariant y >= 0 && (y <= maxXY + 1 || y == 0)
      invariant done + Candidates(data, y, maxXY) == Candidates(data, 0, maxXY)
      invariant AsSeq(only) == done
      decreases maxXY + 1 - y
    {
      ghost var row := RowPoints(RowCandidates(data, y, maxXY), y);
      CandidatesStep(data, y, maxXY, done);
      var ok;
      ok, only := ScanRow(data, y, maxXY, only);
      if !ok {
        return None;
      }
      done := done + row;
      y := y + 1;
    }
    CandidatesDone(data, y, maxXY, done, only);
    return only;
  }

  // ---------------------------------------------------------------------------
  // The answer

  const U64_MODULUS := 0x1_0000_0000_0000_0000

  /** `x as u64` for an `i32`: a negative value sign-extends. */
  function AsU64(v: int): nat
    requires -0x8000_0000 <= v < 0x8000_0000
  {
    if v >= 0 then v else v + U64_MODULUS
  }

  /** `part_2`: x * 4000000 + y in `u64`; an overflow is a panic (None). */
  function Tuning(p: Point): Option<nat>
    requires -0x8000_0000 <= p.x < 0x8000_0000 && -0x8000_0000 <= p.y < 0x8000_0000
  {
    var product := AsU64(p.x) * 4000000;
    if product >= U64_MODULUS || product + AsU64(p.y) >= U64_MODULUS then None
    else Some(product + AsU64(p.y))
  }

  /** For a cell in the searched square the answer does not overflow and
      gives the cell back. */
  lemma TuningDecodes(p: Point)
    requires 0 <= p.x < 0x8000_0000 && 0 <= p.y < 4000000
    ensures Tuning(p).Some?
    ensures Tuning(p).value / 4000000 == p.x && Tuning(p).value % 4000000 == p.y
  {
    assert p.x * 4000000 < 0x8000_0000 * 4000000;
    ModUnique(Tuning(p).value, 4000000, p.x, p.y);
  }
}
