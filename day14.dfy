/** Falling sand (day 14): rock paths are drawn into a grid, then grains of
    sand enter at (500, 0) one at a time and fall until they come to rest or
    drop below every rock. In walled mode a floor two rows below the lowest
    rock stops every grain. */
module Day14 {
  import opened Common

  datatype Point = Point(x: int, y: int)

  datatype Dir = Up | Down | Left | Right | DownLeft | DownRight

  /** The Manhattan distance. */
  function Dist(a: Point, b: Point): nat
  {
    Abs(a.x - b.x) + Abs(a.y - b.y)
  }

  /** `step`: one unit in the given direction (y grows downwards). */
  function Step(p: Point, d: Dir): (r: Point)
    ensures Dist(p, r) == if d.DownLeft? || d.DownRight? then 2 else 1
    ensures r.y == p.y + (if d.Up? then -1 else if d.Left? || d.Right? then 0 else 1)
    ensures d.Up? || d.Down? ==> r.x == p.x
  {
    match d
    case Up => Point(p.x, p.y - 1)
    case Down => Point(p.x, p.y + 1)
    case Left => Point(p.x - 1, p.y)
    case Right => Point(p.x + 1, p.y)
    case DownLeft => Point(p.x - 1, p.y + 1)
    case DownRight => Point(p.x + 1, p.y + 1)
  }

  /** `dir_of`: the axis direction from `p` towards `q`; equal or diagonal
      points are a panic (None). A step in that direction brings `p` one unit
      nearer, and the direction stays the same until `q` is reached. */
  function DirOf(p: Point, q: Point): (r: Option<Dir>)
    ensures r.Some? <==> p != q && (p.x == q.x || p.y == q.y)
    ensures r.Some? ==> r.value in {Up, Down, Left, Right}
    ensures r.Some? ==> Dist(Step(p, r.value), q) == Dist(p, q) - 1
  {
    match (Sign(q.x - p.x), Sign(q.y - p.y))
    case (0, -1) => Some(Up)
    case (0, 1) => Some(Down)
    case (-1, 0) => Some(Left)
    case (1, 0) => Some(Right)
    case _ => None
  }

  /** Until `q` is reached, a step towards it keeps the same direction. */
  lemma DirOfStep(p: Point, q: Point)
    requires DirOf(p, q).Some? && Step(p, DirOf(p, q).value) != q
    ensures DirOf(Step(p, DirOf(p, q).value), q) == DirOf(p, q)
  {
  }

  /** The points after `a` up to and including `b`, one step at a time. */
  function Segment(a: Point, b: Point): seq<Point>
    requires a == b || DirOf(a, b).Some?
    decreases Dist(a, b)
  {
    if a == b then []
    else
      var n := Step(a, DirOf(a, b).value);
      if n != b then DirOfStep(a, b); [n] + Segment(n, b) else [n]
  }

  /** A segment has one point per unit of distance, each one step after the
      previous, and ends at `b`. */
  lemma {:induction false} SegmentFacts(a: Point, b: Point)
    requires a == b || DirOf(a, b).Some?
    ensures |Segment(a, b)| == Dist(a, b)
    ensures Segment(a, b) != [] ==> Dist(a, Segment(a, b)[0]) == 1 && Segment(a, b)[|Segment(a, b)| - 1] == b
    ensures forall k :: 0 < k < |Segment(a, b)| ==> Dist(Segment(a, b)[k - 1], Segment(a, b)[k]) == 1
    decreases Dist(a, b)
  {
    if a != b {
      var n := Step(a, DirOf(a, b).value);
      SegmentFacts(n, b);
      var s := Segment(a, b);
      assert s == [n] + Segment(n, b);
      forall k | 0 < k < |s|
        ensures Dist(s[k - 1], s[k]) == 1
      {
        if k > 1 {
          assert s[k - 1] == Segment(n, b)[k - 2] && s[k] == Segment(n, b)[k - 1];
        }
      }
    }
  }

  /** The points of a path (a polyline through `path`), or None when the
      path is empty or two consecutive corners are equal or diagonal. */
  function Points(path: seq<Point>): Option<seq<Point>>
  {
    if |path| == 0 then None
    else if |path| == 1 then Some([path[0]])
    else
      var n := |path|;
      match Points(path[..n - 1])
      case None => None
      case Some(front) =>
        if DirOf(path[n - 2], path[n - 1]).Some? then Some(front + Segment(path[n - 2], path[n - 1])) else None
  }

  /** A path is drawable exactly when it has corners and consecutive corners
      are distinct and axis aligned. */
  lemma {:induction false} PointsDefined(path: seq<Point>)
    ensures Points(path).Some? <==> |path| > 0 && forall i :: 1 <= i < |path| ==> DirOf(path[i - 1], path[i]).Some?
  {
    var n := |path|;
    if n > 1 {
      var p := path[..n - 1];
      PointsDefined(p);
      if Points(path).Some? {
        forall i | 1 <= i < n
          ensures DirOf(path[i - 1], path[i]).Some?
        {
          if i < n - 1 {
            assert p[i - 1] == path[i - 1] && p[i] == path[i];
          }
        }
      } else if Points(p).None? && n > 1 {
        var i :| 1 <= i < n - 1 && DirOf(p[i - 1], p[i]).None?;
        assert p[i - 1] == path[i - 1] && p[i] == path[i];
      }
    }
  }

  /** The points of a drawable path start and end at its ends, are each one
      step from the next, and pass through every corner. */
  lemma {:induction false} PointsShape(path: seq<Point>)
    requires Points(path).Some?
    ensures var r := Points(path).value;
      && r != [] && r[0] == path[0] && r[|r| - 1] == path[|path| - 1]
      && (forall k :: 0 < k < |r| ==> Dist(r[k - 1], r[k]) == 1)
      && (forall i :: 0 <= i < |path| ==> path[i] in r)
  {
    var n := |path|;
    if n > 1 {
      var p := path[..n - 1];
      PointsShape(p);
      var front := Points(p).value;
      var a, b := path[n - 2], path[n - 1];
      SegmentFacts(a, b);
      var seg := Segment(a, b);
      var r := front + seg;
      assert Points(path).value == r;
      assert front[|front| - 1] == a;
      JoinSteps(front, seg);
      forall i | 0 <= i < n
        ensures path[i] in r
      {
        if i < n - 1 {
          assert path[i] == p[i] && p[i] in front;
        } else {
          assert r[|r| - 1] == b;
        }
      }
    }
  }

  lemma JoinSteps(front: seq<Point>, seg: seq<Point>)
    requires front != [] && seg != [] && Dist(front[|front| - 1], seg[0]) == 1
    requires forall k :: 0 < k < |front| ==> Dist(front[k - 1], front[k]) == 1
    requires forall k :: 0 < k < |seg| ==> Dist(seg[k - 1], seg[k]) == 1
    ensures forall k :: 0 < k < |front + seg| ==> Dist((front + seg)[k - 1], (front + seg)[k]) == 1
  {
    var r := front + seg;
    forall k | 0 < k < |r|
      ensures Dist(r[k - 1], r[k]) == 1
    {
      if k == |front| {
      } else if k > |front| {
        assert r[k - 1] == seg[k - 1 - |front|] && r[k] == seg[k - |front|];
      } else {
        assert r[k - 1] == front[k - 1] && r[k] == front[k];
      }
    }
  }

  lemma {:induction false} PointsNoneGrows(path: seq<Point>, i: nat)
    requires 1 <= i <= |path| && Points(path[..i]).None?
    ensures Points(path).None?
    decreases |path| - i
  {
    if i < |path| {
      assert path[..i + 1][..i] == path[..i];
      PointsNoneGrows(path, i + 1);
    } else {
      assert path[..i] == path;
    }
  }

  /** The inner loop of `Path::points`: step from `current` to `end`,
      appending each point reached. */
  method WalkSegment(current: Point, end: Point, acc: seq<Point>) returns (acc': seq<Point>)
    requires DirOf(current, end).Some?
    ensures acc' == acc + Segment(current, end)
  {
    var dir := DirOf(current, end);
    var cur := current;
    acc' := acc;
    while cur != end
      invariant cur == end || DirOf(cur, end) == dir
      invariant acc' + Segment(cur, end) == acc + Segment(current, end)
      decreases Dist(cur, end)
    {
      var next := Step(cur, dir.value);
      assert Segment(cur, end) == [next] + Segment(next, end);
      cur := next;
      acc' := acc' + [cur];
    }
  }

  /** `Path::points`: walk each segment one step at a time. */
  method PathPoints(path: seq<Point>) returns (ret: Option<seq<Point>>)
    ensures ret == Points(path)
  {
    if |path| == 0 {
      return None;
    }
    var current := path[0];
    var acc := [current];
    assert path[..1] == [path[0]];
    var i := 1;
    while i < |path|
      invariant 1 <= i <= |path|
      invariant Points(path[..i]) == Some(acc) && current == path[i - 1]
    {
      var end := path[i];
      var dir := DirOf(current, end);
      assert path[..i + 1][..i] == path[..i];
      if dir.None? {
        PointsNoneGrows(path, i + 1);
        return None;
      }
      ghost var before := acc;
      acc := WalkSegment(current, end, acc);
      current := end;
      assert acc == before + Segment(path[i - 1], end);
      assert path[..i + 1][i - 1] == path[i - 1] && path[..i + 1][i] == end;
      assert Points(path[..i + 1]) == Some(acc);
      i := i + 1;
    }
    assert path[..i] == path;
    return Some(acc);
  }

  // ---------------------------------------------------------------------------
  // The grid

  /** The points of all paths in order, or None when one is not drawable. */
  function AllPoints(paths: seq<seq<Point>>): Option<seq<Point>>
  {
    if paths == [] then Some([])
    else
      match (AllPoints(paths[..|paths| - 1]), Points(paths[|paths| - 1]))
      case (Some(front), Some(last)) => Some(front + last)
      case _ => None
  }

  /** The largest y among `pts`, or 0 (the running maximum starts at 0). */
  function LowestY(pts: seq<Point>): int
  {
    if pts == [] then 0 else Max(LowestY(pts[..|pts| - 1]), pts[|pts| - 1].y)
  }

  /** The lowest rock row is never above 0, no point lies below it, and it is
      0 or the row of some point. */
  lemma {:induction false} LowestYFacts(pts: seq<Point>)
    ensures LowestY(pts) >= 0
    ensures forall k :: 0 <= k < |pts| ==> pts[k].y <= LowestY(pts)
    ensures LowestY(pts) == 0 || exists k :: 0 <= k < |pts| && pts[k].y == LowestY(pts)
  {
    if pts != [] {
      var p := pts[..|pts| - 1];
      LowestYFacts(p);
      assert forall k :: 0 <= k < |p| ==> pts[k] == p[k];
    }
  }

  const Start := Point(500, 0)

  /** `is_occupied`: rock or sand, or the floor at `max_y + 2` in walled mode. */
  predicate Occupied(fields: set<Point>, maxY: int, walled: bool, p: Point)
  {
    p in fields || (walled && p.y == maxY + 2)
  }

  /** Where a grain at `cur` comes to rest: it moves down, else down-left,
      else down-right, while one of those is free; None once it has reached
      row `max_y + 3`. */
  function Fall(fields: set<Point>, maxY: int, walled: bool, cur: Point): Option<Point>
    decreases maxY + 3 - cur.y
  {
    if cur.y >= maxY + 3 then None
    else if !Occupied(fields, maxY, walled, Step(cur, Down)) then Fall(fields, maxY, walled, Step(cur, Down))
    else if !Occupied(fields, maxY, walled, Step(cur, DownLeft)) then Fall(fields, maxY, walled, Step(cur, DownLeft))
    else if !Occupied(fields, maxY, walled, Step(cur, DownRight)) then Fall(fields, maxY, walled, Step(cur, DownRight))
    else Some(cur)
  }

  /** A grain rests with all three cells below it occupied, within the cone
      below where it started and above row `max_y + 3`, on a free cell unless
      it never moved. */
  lemma {:induction false} FallFacts(fields: set<Point>, maxY: int, walled: bool, cur: Point)
    ensures Fall(fields, maxY, walled, cur).Some? ==> var r := Fall(fields, maxY, walled, cur).value;
      && Occupied(fields, maxY, walled, Step(r, Down))
      && Occupied(fields, maxY, walled, Step(r, DownLeft))
      && Occupied(fields, maxY, walled, Step(r, DownRight))
      && cur.y <= r.y < maxY + 3
      && Abs(r.x - cur.x) <= r.y - cur.y
      && (r == cur || !Occupied(fields, maxY, walled, r))
    decreases maxY + 3 - cur.y
  {
    if cur.y < maxY + 3 {
      var d, l, rt := Step(cur, Down), Step(cur, DownLeft), Step(cur, DownRight);
      if !Occupied(fields, maxY, walled, d) {
        FallFacts(fields, maxY, walled, d);
      } else if !Occupied(fields, maxY, walled, l) {
        FallFacts(fields, maxY, walled, l);
      } else if !Occupied(fields, maxY, walled, rt) {
        FallFacts(fields, maxY, walled, rt);
      }
    }
  }

  /** With the floor in place no grain falls out: every grain above the floor
      comes to rest. */
  lemma {:induction false} WalledFallRests(fields: set<Point>, maxY: int, cur: Point)
    requires cur.y <= maxY + 1
    ensures Fall(fields, maxY, true, cur).Some?
    decreases maxY + 3 - cur.y
  {
    if cur.y < maxY + 1 {
      var d, l, rt := Step(cur, Down), Step(cur, DownLeft), Step(cur, DownRight);
      if !Occupied(fields, maxY, true, d) {
        WalledFallRests(fields, maxY, d);
      } else if !Occupied(fields, maxY, true, l) {
        WalledFallRests(fields, maxY, l);
      } else if !Occupied(fields, maxY, true, rt) {
        WalledFallRests(fields, maxY, rt);
      }
    }
  }

  /** The cells `(x0, y) .. (x0 + n - 1, y)`. */
  function Row(y: int, x0: int, n: nat): set<Point>
    decreases n
  {
    if n == 0 then {} else {Point(x0, y)} + Row(y, x0 + 1, n - 1)
  }

  lemma {:induction false} InRow(y: int, x0: int, n: nat, p: Point)
    ensures p in Row(y, x0, n) <==> p.y == y && x0 <= p.x < x0 + n
    decreases n
  {
    if n > 0 {
      InRow(y, x0 + 1, n - 1, p);
    }
  }

  /** The rows `0 .. rows - 1` of the columns within `b` of the entry. */
  function Cone(b: nat, rows: nat): set<Point>
  {
    if rows == 0 then {} else Row(rows - 1, 500 - b, 2 * b + 1) + Cone(b, rows - 1)
  }

  lemma {:induction false} InCone(b: nat, rows: nat, p: Point)
    ensures p in Cone(b, rows) <==> 0 <= p.y < rows && 500 - b <= p.x <= 500 + b
  {
    if rows > 0 {
      InRow(rows - 1, 500 - b, 2 * b + 1, p);
      InCone(b, rows - 1, p);
    }
  }

  /** The cells a grain can rest on: the columns within `max_y + 2` of the
      entry, down to row `max_y + 2`. */
  function Region(maxY: int): set<Point>
  {
    var b: nat := Max(maxY + 2, 0);
    Cone(b, b + 1)
  }

  lemma RestInRegion(fields: set<Point>, maxY: int, walled: bool)
    requires Fall(fields, maxY, walled, Start).Some?
    ensures Fall(fields, maxY, walled, Start).value in Region(maxY)
  {
    var r := Fall(fields, maxY, walled, Start).value;
    FallBounds(fields, maxY, walled, Start);
    var b: nat := Max(maxY + 2, 0);
    assert 0 <= r.y <= b && 500 - b <= r.x <= 500 + b;
    InCone(b, b + 1, r);
  }

  /** The bounds part of FallFacts: a grain comes to rest below where it
      started, within the cone spreading one column per row. */
  lemma FallBounds(fields: set<Point>, maxY: int, walled: bool, cur: Point)
    requires Fall(fields, maxY, walled, cur).Some?
    ensures var r := Fall(fields, maxY, walled, cur).value;
      cur.y <= r.y < maxY + 3 && Abs(r.x - cur.x) <= r.y - cur.y
  {
    FallFacts(fields, maxY, walled, cur);
  }

  lemma InRegion(maxY: int, p: Point)
    ensures p in Region(maxY) <==> 0 <= p.y <= Max(maxY + 2, 0) && 500 - Max(maxY + 2, 0) <= p.x <= 500 + Max(maxY + 2, 0)
  {
    InCone(Max(maxY + 2, 0), Max(maxY + 2, 0) + 1, p);
  }

  /** Taking one more cell of `region` leaves fewer free cells in it. */
  lemma Shrinks(region: set<Point>, fields: set<Point>, r: Point)
    requires r in region && r !in fields
    ensures |region - (fields + {r})| < |region - fields|
  {
    var free := region - fields;
    assert free == (free - {r}) + {r};
    assert region - (fields + {r}) == free - {r};
  }

  /** The cells occupied once grains have been poured until one does not
      come to rest on a free cell (it falls out, or the entry is blocked).
      Pouring only adds cells, and only cells of the cone. */
  function Settle(fields: set<Point>, maxY: int, walled: bool): (r: set<Point>)
    ensures fields <= r && r - fields <= Region(maxY)
    decreases |Region(maxY) - fields|
  {
    var rest := Fall(fields, maxY, walled, Start);
    if rest.None? || rest.value in fields then fields
    else
      RestInRegion(fields, maxY, walled);
      Shrinks(Region(maxY), fields, rest.value);
      Settle(fields + {rest.value}, maxY, walled)
  }

  /** One grain of the pour: a grain resting on a free cell takes that cell
      and leaves fewer free cells in the cone. */
  lemma PourStep(fields: set<Point>, maxY: int, walled: bool, r: Point)
    requires Fall(fields, maxY, walled, Start) == Some(r) && r !in fields
    ensures Settle(fields, maxY, walled) == Settle(fields + {r}, maxY, walled)
    ensures |Region(maxY) - (fields + {r})| < |Region(maxY) - fields|
  {
    RestInRegion(fields, maxY, walled);
    Shrinks(Region(maxY), fields, r);
  }

  /** What one call of `simulate_one_sand` does to the pour: a grain that
      came to rest on a free cell leaves the outcome of the pour unchanged,
      with one more cell and fewer free cells in the cone; any other grain
      ends it. */
  lemma SandStep(before: set<Point>, after: set<Point>, maxY: int, walled: bool, inserted: bool)
    requires var r := Fall(before, maxY, walled, Start);
      && inserted == (r.Some? && r.value !in before)
      && after == (if r.Some? then before + {r.value} else before)
    ensures !inserted ==> Settle(before, maxY, walled) == before
    ensures inserted ==> (
      && Settle(after, maxY, walled) == Settle(before, maxY, walled)
      && |after| == |before| + 1
      && |Region(maxY) - after| < |Region(maxY) - before|)
  {
    var r := Fall(before, maxY, walled, Start);
    if inserted {
      PourStep(before, maxY, walled, r.value);
    } else {
      PourStop(before, maxY, walled);
    }
  }

  /** Any other outcome ends the pour. */
  lemma PourStop(fields: set<Point>, maxY: int, walled: bool)
    requires Fall(fields, maxY, walled, Start).None? || Fall(fields, maxY, walled, Start).value in fields
    ensures Settle(fields, maxY, walled) == fields
  {
  }

  /** With the floor in place the pour ends only once a grain rests on the
      entry point itself. */
  lemma {:induction false} WalledPourBlocksEntry(fields: set<Point>, maxY: int)
    requires maxY >= -1
    ensures Start in Settle(fields, maxY, true)
    decreases |Region(maxY) - fields|
  {
    WalledFallRests(fields, maxY, Start);
    FallFacts(fields, maxY, true, Start);
    var r := Fall(fields, maxY, true, Start).value;
    if r in fields {
      PourStop(fields, maxY, true);
    } else {
      PourStep(fields, maxY, true, r);
      WalledPourBlocksEntry(fields + {r}, maxY);
    }
  }

  class Grid {
    var fields: set<Point>
    var maxY: int
    var walled: bool

    constructor(fields: set<Point>, maxY: int, walled: bool)
      ensures this.fields == fields && this.maxY == maxY && this.walled == walled
    {
      this.fields := fields;
      this.maxY := maxY;
      this.walled := walled;
    }

    /** `simulate_one_sand`: drop one grain from the entry point; true when
        it came to rest on a cell that was free. */
    method SimulateOneSand() returns (inserted: bool)
      modifies this`fields
      ensures var r := Fall(old(fields), maxY, walled, Start);
        && inserted == (r.Some? && r.value !in old(fields))
        && fields == (if r.Some? then old(fields) + {r.value} else old(fields))
    {
      var current := Start;
      while current.y < maxY + 3
        invariant Fall(fields, maxY, walled, current) == Fall(fields, maxY, walled, Start)
        invariant fields == old(fields)
        decreases maxY + 3 - current.y
      {
        var next := Step(current, Down);
        if !Occupied(fields, maxY, walled, next) {
          current := next;
          continue;
        }
        next := Step(current, DownLeft);
        if !Occupied(fields, maxY, walled, next) {
          current := next;
          continue;
        }
        next := Step(current, DownRight);
        if !Occupied(fields, maxY, walled, next) {
          current := next;
          continue;
        }
        inserted := current !in fields;
        fields := fields + {current};
        return;
      }
      return false;
    }

    /** `simulate_all`: drop grains until one does not come to rest on a
        free cell, and count those that did. */
    method SimulateAll() returns (count: nat)
      modifies this`fields
      ensures fields == Settle(old(fields), maxY, walled)
      ensures |fields| == |old(fields)| + count
    {
      count := 0;
      while true
        invariant Settle(fields, maxY, walled) == Settle(old(fields), maxY, walled)
        invariant |fields| == |old(fields)| + count
        decreases |Region(maxY) - fields|
      {
        ghost var before := fields;
        var more := SimulateOneSand();
        SandStep(before, fields, maxY, walled, more);
        if !more {
          return;
        }
        count := count + 1;
      }
    }
  }

  /** `Grid::parse` on the parsed paths: every point of every path is rock,
      and `max_y` is the lowest rock row (at least 0). A path that cannot be
      drawn is a panic (None). */
  method ParseGrid(paths: seq<seq<Point>>, walled: bool) returns (g: Option<Grid>)
    ensures g.Some? <==> AllPoints(paths).Some?
    ensures g.Some? ==> (
      && fresh(g.value)
      && g.value.fields == (set p | p in AllPoints(paths).value)
      && g.value.maxY == LowestY(AllPoints(paths).value)
      && g.value.walled == walled)
  {
    var fields: set<Point> := {};
    var lowest := 0;
    ghost var seen: seq<Point> := [];
    for i := 0 to |paths|
      invariant AllPoints(paths[..i]) == Some(seen)
      invariant fields == (set p | p in seen) && lowest == LowestY(seen)
    {
      assert paths[..i + 1][..i] == paths[..i];
      var pts := PathPoints(paths[i]);
      if pts.None? {
        AllPointsNoneGrows(paths, i + 1);
        return None;
      }
      fields, lowest := AddRock(fields, lowest, seen, pts.value);
      seen := seen + pts.value;
    }
    assert paths[..|paths|] == paths;
    var grid := new Grid(fields, lowest, walled);
    return Some(grid);
  }

  /** The inner loop of `Grid::parse`: mark every point of one path as rock
      and lower `max_y` to it where needed. */
  method AddRock(fields: set<Point>, lowest: int, ghost seen: seq<Point>, pts: seq<Point>)
    returns (fields': set<Point>, lowest': int)
    requires fields == (set p | p in seen) && lowest == LowestY(seen)
    ensures fields' == (set p | p in seen + pts) && lowest' == LowestY(seen + pts)
  {
    fields', lowest' := fields, lowest;
    assert seen + pts[..0] == seen;
    for j := 0 to |pts|
      invariant fields' == (set p | p in seen + pts[..j]) && lowest' == LowestY(seen + pts[..j])
    {
      var point := pts[j];
      assert seen + pts[..j + 1] == (seen + pts[..j]) + [point];
      AddPoint(seen + pts[..j], point);
      if point.y > lowest' {
        lowest' := point.y;
      }
      fields' := fields' + {point};
    }
    assert pts[..|pts|] == pts;
  }

  lemma AddPoint(pts: seq<Point>, p: Point)
    ensures (set q | q in pts + [p]) == (set q | q in pts) + {p}
    ensures LowestY(pts + [p]) == Max(LowestY(pts), p.y)
  {
    assert (pts + [p])[..|pts|] == pts;
  }

  lemma {:induction false} AllPointsNoneGrows(paths: seq<seq<Point>>, i: nat)
    requires i <= |paths| && AllPoints(paths[..i]).None?
    ensures AllPoints(paths).None?
    decreases |paths| - i
  {
    if i < |paths| {
      assert paths[..i + 1][..i] == paths[..i];
      AllPointsNoneGrows(paths, i + 1);
    } else {
      assert paths[..i] == paths;
    }
  }
}
