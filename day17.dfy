/** Pyroclastic flow (day 17): rocks fall into a chamber seven units wide,
    pushed sideways by a cyclic sequence of jets, and come to rest on the
    floor or on earlier rocks. */
module Day17 {
  import opened Common

  datatype Point = Point(x: int, y: int)

  function Add(a: Point, b: Point): Point
  {
    Point(a.x + b.x, a.y + b.y)
  }

  datatype Rock = Rock(points: seq<Point>)

  const WIDTH: int := 7
  const DOWN: Point := Point(0, -1)

  // ---------------------------------------------------------------------------
  // Rock templates

  /** The '#' cells of `line`, read as row `y`, with column below `x`. */
  function RowPoints(line: string, y: int, x: nat): seq<Point>
    requires x <= |line|
  {
    if x == 0 then []
    else RowPoints(line, y, x - 1) + (if line[x - 1] == '#' then [Point(x - 1, y)] else [])
  }

  /** The points of rows 0..y-1, where row 0 is the last line. */
  function RowsBelow(lines: seq<string>, y: nat): seq<Point>
    requires y <= |lines|
  {
    if y == 0 then []
    else RowsBelow(lines, y - 1) + RowPoints(lines[|lines| - y], y - 1, |lines[|lines| - y]|)
  }

  /** Point `p` is a '#' of the template, row 0 being the last line. */
  predicate IsCell(lines: seq<string>, p: Point)
  {
    0 <= p.y < |lines| && 0 <= p.x < |lines[|lines| - 1 - p.y]| && lines[|lines| - 1 - p.y][p.x] == '#'
  }

  /** Bottom row first, left to right within a row. */
  predicate Before(a: Point, b: Point)
  {
    a.y < b.y || (a.y == b.y && a.x < b.x)
  }

  predicate InReadingOrder(ps: seq<Point>)
  {
    forall i, j :: 0 <= i < j < |ps| ==> Before(ps[i], ps[j])
  }

  lemma {:induction false} RowPointsFacts(line: string, y: int, x: nat)
    requires x <= |line|
    ensures forall i :: 0 <= i < |RowPoints(line, y, x)| ==>
      var p := RowPoints(line, y, x)[i]; p.y == y && 0 <= p.x < x && line[p.x] == '#'
    ensures forall c :: 0 <= c < x && line[c] == '#' ==> Point(c, y) in RowPoints(line, y, x)
    ensures InReadingOrder(RowPoints(line, y, x))
  {
    if x > 0 {
      RowPointsFacts(line, y, x - 1);
    }
  }

  lemma {:induction false} RowsBelowFacts(lines: seq<string>, y: nat)
    requires y <= |lines|
    ensures forall i :: 0 <= i < |RowsBelow(lines, y)| ==>
      IsCell(lines, RowsBelow(lines, y)[i]) && RowsBelow(lines, y)[i].y < y
    ensures forall p :: IsCell(lines, p) && p.y < y ==> p in RowsBelow(lines, y)
    ensures InReadingOrder(RowsBelow(lines, y))
  {
    if y > 0 {
      RowsBelowFacts(lines, y - 1);
      var line := lines[|lines| - y];
      RowPointsFacts(line, y - 1, |line|);
      var a, b := RowsBelow(lines, y - 1), RowPoints(line, y - 1, |line|);
      assert RowsBelow(lines, y) == a + b;
      forall p | IsCell(lines, p) && p.y < y
        ensures p in a + b
      {
        if p.y < y - 1 {
          assert p in a;
        } else {
          assert p in b;
        }
      }
    }
  }

  /** `Rock::parse`: the '#' cells of a template, bottom line first. */
  method ParseRock(lines: seq<string>) returns (rock: Rock)
    ensures rock.points == RowsBelow(lines, |lines|)
    ensures forall i :: 0 <= i < |rock.points| ==> IsCell(lines, rock.points[i])
    ensures forall p :: IsCell(lines, p) ==> p in rock.points
    ensures InReadingOrder(rock.points)
  {
    var points: seq<Point> := [];
    for y := 0 to |lines|
      invariant points == RowsBelow(lines, y)
    {
      var line := lines[|lines| - 1 - y];
      for x := 0 to |line|
        invariant points == RowsBelow(lines, y) + RowPoints(line, y, x)
      {
        if line[x] == '#' {
          points := points + [Point(x, y)];
        }
      }
    }
    RowsBelowFacts(lines, |lines|);
    rock := Rock(points);
  }

  /** A rock moved by `d`. */
  function Shift(rock: Rock, d: Point): (r: Rock)
    ensures |r.points| == |rock.points|
  {
    Rock(seq(|rock.points|, i requires 0 <= i < |rock.points| => Add(rock.points[i], d)))
  }

  /** `raw_move`: every point of the rock moves by `d`; moves compose, and a
      move can be undone. */
  method RawMove(rock: Rock, d: Point) returns (r: Rock)
    ensures r == Shift(rock, d)
    ensures Shift(r, Point(-d.x, -d.y)) == rock
  {
    var points := rock.points;
    for i := 0 to |points|
      invariant |points| == |rock.points|
      invariant forall k :: 0 <= k < |points| ==> points[k] == if k < i then Add(rock.points[k], d) else rock.points[k]
    {
      points := points[i := Add(points[i], d)];
    }
    r := Rock(points);
  }

  /** Moving keeps the reading order of the points. */
  lemma ShiftKeepsOrder(rock: Rock, d: Point)
    requires InReadingOrder(rock.points)
    ensures InReadingOrder(Shift(rock, d).points)
  {
  }

  // ---------------------------------------------------------------------------
  // The chamber

  /** Cell `p` is inside the chamber walls, above the floor and not taken. */
  predicate Free(occupied: seq<seq<bool>>, p: Point)
  {
    0 <= p.x < WIDTH && p.y >= 0
    && (p.y < |occupied| && p.x < |occupied[p.y]| ==> !occupied[p.y][p.x])
  }

  predicate FitsIn(occupied: seq<seq<bool>>, rock: Rock)
  {
    forall i :: 0 <= i < |rock.points| ==> Free(occupied, rock.points[i])
  }

  /** The jets `Chamber::parse` produces: one step left or right. */
  predicate IsJet(d: Point)
  {
    d == Point(-1, 0) || d == Point(1, 0)
  }

  /** A template a rock can be made from: at least one point, none below row 0. */
  predicate IsTemplate(rock: Rock)
  {
    |rock.points| > 0 && forall i :: 0 <= i < |rock.points| ==> rock.points[i].y >= 0
  }

  // ---------------------------------------------------------------------------
  // Falling and resting

  /** One jet push: the rock moves by the jet when it fits there. */
  function Push(occupied: seq<seq<bool>>, rock: Rock, d: Point): (r: Rock)
    ensures r == rock || r == Shift(rock, d)
  {
    if FitsIn(occupied, Shift(rock, d)) then Shift(rock, d) else rock
  }

  /** Where a rock comes to rest in a chamber that does not change while it
      falls: jet `j` pushes it, then it steps down, over and over, until a
      step down is blocked. The second component is the index of the next
      jet. */
  function FallFrom(occupied: seq<seq<bool>>, rock: Rock, jets: seq<Point>, j: nat): (r: (Rock, nat))
    requires j < |jets| && |rock.points| > 0
    requires forall i :: 0 <= i < |jets| ==> IsJet(jets[i])
    ensures |r.0.points| == |rock.points| && r.1 < |jets|
    decreases rock.points[0].y
  {
    var pushed := Push(occupied, rock, jets[j]);
    var next := (j + 1) % |jets|;
    var fallen := Shift(pushed, DOWN);
    if FitsIn(occupied, fallen) then
      assert Free(occupied, fallen.points[0]);
      FallFrom(occupied, fallen, jets, next)
    else (pushed, next)
  }

  /** A rock that fits where it starts still fits where it rests, and from
      there a step down is blocked. */
  lemma {:induction false} FallRests(occupied: seq<seq<bool>>, rock: Rock, jets: seq<Point>, j: nat)
    requires j < |jets| && |rock.points| > 0
    requires forall i :: 0 <= i < |jets| ==> IsJet(jets[i])
    ensures !FitsIn(occupied, Shift(FallFrom(occupied, rock, jets, j).0, DOWN))
    ensures FitsIn(occupied, rock) ==> FitsIn(occupied, FallFrom(occupied, rock, jets, j).0)
    decreases rock.points[0].y
  {
    var pushed := Push(occupied, rock, jets[j]);
    var fallen := Shift(pushed, DOWN);
    if FitsIn(occupied, fallen) {
      assert Free(occupied, fallen.points[0]);
      FallRests(occupied, fallen, jets, (j + 1) % |jets|);
    }
  }

  /** The marking loop of `drop_rock`: each point of the resting rock, in
      order, adds an empty row when it lies just above the top one and
      marks its cell; None where the source indexes out of range. */
  function Mark(occupied: seq<seq<bool>>, ps: seq<Point>): Option<seq<seq<bool>>>
    decreases |ps|
  {
    if ps == [] then Some(occupied)
    else
      var p := ps[0];
      if p.y < 0 || p.y > |occupied| || p.x < 0 || p.x >= WIDTH then None
      else
        var grown := if p.y == |occupied| then occupied + [seq(WIDTH, _ => false)] else occupied;
        if p.x >= |grown[p.y]| then None
        else Mark(grown[p.y := grown[p.y][p.x := true]], ps[1..])
  }

  /** The largest of `h` and the rows of `ps`. */
  function MaxRow(h: int, ps: seq<Point>): int
    decreases |ps|
  {
    if ps == [] then h else MaxRow(Max(h, ps[0].y), ps[1..])
  }

  /** `MaxRow` is at least `h` and every row of `ps`, and is one of them. */
  lemma {:induction false} MaxRowMeaning(h: int, ps: seq<Point>)
    ensures MaxRow(h, ps) >= h
    ensures forall i :: 0 <= i < |ps| ==> ps[i].y <= MaxRow(h, ps)
    ensures MaxRow(h, ps) == h || exists i :: 0 <= i < |ps| && MaxRow(h, ps) == ps[i].y
    decreases |ps|
  {
    if ps != [] {
      MaxRowMeaning(Max(h, ps[0].y), ps[1..]);
      if MaxRow(h, ps) != Max(h, ps[0].y) {
        var i :| 0 <= i < |ps[1..]| && MaxRow(h, ps) == ps[1..][i].y;
        assert MaxRow(h, ps) == ps[i + 1].y;
      }
    }
  }

  predicate RowsOfWidth(occupied: seq<seq<bool>>)
  {
    forall r :: 0 <= r < |occupied| ==> |occupied[r]| == WIDTH
  }

  /** One marked point: the cell of `p` is taken afterwards, and every other
      cell keeps its state. */
  lemma MarkOne(occupied: seq<seq<bool>>, p: Point, after: seq<seq<bool>>)
    requires RowsOfWidth(occupied)
    requires 0 <= p.y <= |occupied| && 0 <= p.x < WIDTH
    requires after == (var grown := if p.y == |occupied| then occupied + [seq(WIDTH, _ => false)] else occupied;
                       grown[p.y := grown[p.y][p.x := true]])
    ensures RowsOfWidth(after) && |after| - 1 == Max(|occupied| - 1, p.y)
    ensures forall r, c :: 0 <= r < |after| && 0 <= c < WIDTH ==>
      (after[r][c] <==> (r < |occupied| && occupied[r][c]) || (r == p.y && c == p.x))
  {
  }

  /** Marking keeps rows of the chamber's width, grows them up to the
      highest point, and every point lies inside the walls and the rows. */
  lemma {:induction false} MarkShape(occupied: seq<seq<bool>>, ps: seq<Point>)
    requires RowsOfWidth(occupied) && Mark(occupied, ps).Some?
    ensures var after := Mark(occupied, ps).value;
      && RowsOfWidth(after)
      && |after| - 1 == MaxRow(|occupied| - 1, ps)
      && (forall i :: 0 <= i < |ps| ==> 0 <= ps[i].x < WIDTH && 0 <= ps[i].y < |after|)
    decreases |ps|
  {
    if ps != [] {
      var p := ps[0];
      var grown := if p.y == |occupied| then occupied + [seq(WIDTH, _ => false)] else occupied;
      var next := grown[p.y := grown[p.y][p.x := true]];
      MarkOne(occupied, p, next);
      MarkShape(next, ps[1..]);
      MaxRowMeaning(Max(|occupied| - 1, p.y), ps[1..]);
      var after := Mark(occupied, ps).value;
      forall i | 0 <= i < |ps|
        ensures 0 <= ps[i].x < WIDTH && 0 <= ps[i].y < |after|
      {
        if i > 0 {
          assert ps[i] == ps[1..][i - 1];
        }
      }
    }
  }

  /** After marking, a cell is taken exactly when it was taken before or
      holds a point of the rock. */
  lemma {:induction false} MarkCells(occupied: seq<seq<bool>>, ps: seq<Point>)
    requires RowsOfWidth(occupied) && Mark(occupied, ps).Some?
    ensures RowsOfWidth(Mark(occupied, ps).value)
    ensures var after := Mark(occupied, ps).value;
      forall r, c :: 0 <= r < |after| && 0 <= c < WIDTH ==>
        (after[r][c] <==> (r < |occupied| && occupied[r][c]) || Point(c, r) in ps)
    decreases |ps|
  {
    MarkShape(occupied, ps);
    if ps != [] {
      var p := ps[0];
      var grown := if p.y == |occupied| then occupied + [seq(WIDTH, _ => false)] else occupied;
      var next := grown[p.y := grown[p.y][p.x := true]];
      MarkOne(occupied, p, next);
      MarkCells(next, ps[1..]);
      MarkShape(next, ps[1..]);
      assert ps == [p] + ps[1..];
    }
  }

  /** True when the `n` entries of `s` from `a` equal those from `b`. */
  predicate SameRun<T(==)>(s: seq<T>, a: nat, b: nat, n: nat)
  {
    a + n <= |s| && b + n <= |s| && s[a..a + n] == s[b..b + n]
  }

  class Chamber {
    const rocks: seq<Rock>
    var rockIndex: nat
    const directions: seq<Point>
    var directionIndex: nat
    var heighest: int
    var occupied: seq<seq<bool>>
    var directionsHistory: seq<nat>
    var growthHistory: seq<int>

    /** Every jet is one step left or right. */
    predicate JetsValid()
    {
      forall i :: 0 <= i < |directions| ==> IsJet(directions[i])
    }

    ghost predicate Valid()
      reads this
    {
      && (forall i :: 0 <= i < |rocks| ==> IsTemplate(rocks[i]))
      && JetsValid()
      && (rockIndex == 0 || rockIndex < |rocks|)
      && (directionIndex == 0 || directionIndex < |directions|)
      && heighest >= -1
      && |occupied| == heighest + 1
      && (forall r :: 0 <= r < |occupied| ==> |occupied[r]| == WIDTH)
      && |directionsHistory| == |growthHistory|
      && (forall k :: 0 <= k < |growthHistory| ==> growthHistory[k] >= 0)
      && Sum(growthHistory) == heighest + 1
    }

    /** `Chamber::parse` after reading: the rock templates and the jets, an
        empty chamber (highest row -1) and empty histories. */
    constructor (rocks: seq<Rock>, directions: seq<Point>)
      requires forall i :: 0 <= i < |rocks| ==> IsTemplate(rocks[i])
      requires forall i :: 0 <= i < |directions| ==> IsJet(directions[i])
      ensures Valid()
      ensures this.rocks == rocks && this.directions == directions
      ensures rockIndex == 0 && directionIndex == 0 && heighest == -1
      ensures occupied == [] && directionsHistory == [] && growthHistory == []
    {
      this.rocks := rocks;
      this.directions := directions;
      rockIndex := 0;
      directionIndex := 0;
      heighest := -1;
      occupied := [];
      directionsHistory := [];
      growthHistory := [];
    }

    /** `next_rock`: the current template, two units from the left wall and
        three empty rows above the highest rock; the template index advances
        cyclically. */
    method NextRock() returns (rock: Rock)
      requires Valid() && |rocks| > 0
      modifies this`rockIndex
      ensures Valid()
      ensures rock == Shift(rocks[old(rockIndex)], Point(2, heighest + 4))
      ensures rockIndex == (old(rockIndex) + 1) % |rocks|
    {
      rock := RawMove(rocks[rockIndex], Point(2, heighest + 4));
      rockIndex := (rockIndex + 1) % |rocks|;
    }

    /** `next_direction`: the current jet; the jet index advances cyclically. */
    method NextDirection() returns (d: Point)
      requires JetsValid() && directionIndex < |directions|
      modifies this`directionIndex
      ensures directionIndex < |directions|
      ensures d == directions[old(directionIndex)] && IsJet(d)
      ensures directionIndex == (old(directionIndex) + 1) % |directions|
    {
      d := directions[directionIndex];
      directionIndex := (directionIndex + 1) % |directions|;
    }

    /** `try_move`: the rock moves by `d` exactly when every moved point is
        free; otherwise it stays where it was. */
    method TryMove(rock: Rock, d: Point) returns (moved: bool, r: Rock)
      ensures moved <==> FitsIn(occupied, Shift(rock, d))
      ensures r == if moved then Shift(rock, d) else rock
    {
      var next := RawMove(rock, d);
      for i := 0 to |next.points|
        invariant forall k :: 0 <= k < i ==> Free(occupied, next.points[k])
      {
        var p := next.points[i];
        if p.x < 0 || p.y < 0 || p.x >= WIDTH {
          return false, rock;
        } else if p.y < |occupied| && p.x < |occupied[p.y]| {
          if occupied[p.y][p.x] {
            return false, rock;
          }
        }
      }
      return true, next;
    }

    /** The state after `rock` came to rest in a chamber whose cells, highest
        row and histories were `occupied0`, `heighest0`, `growth0` and
        `directions0`: its cells are marked as `Mark` describes, the highest
        row is the largest of the old one and the rock's rows, and the growth
        of the tower and the next jet index are appended to the histories. */
    ghost predicate Settled(occupied0: seq<seq<bool>>, heighest0: int, growth0: seq<int>, directions0: seq<nat>, rock: Rock)
      reads this
    {
      && Mark(occupied0, rock.points).Some?
      && occupied == Mark(occupied0, rock.points).value
      && heighest == MaxRow(heighest0, rock.points)
      && growthHistory == growth0 + [heighest - heighest0]
      && directionsHistory == directions0 + [directionIndex]
    }

    /** `drop_rock`: the next template falls as `FallFrom` describes, from
        its start position with the current jet, and then its cells are
        marked as `Mark` describes; the highest row becomes the largest of
        the old one and the rock's rows, and the growth of the tower and
        the next jet index are recorded. `ok` is false where the source
        panics: no templates, no jets, or a resting cell the marking loop
        cannot index. */
    method DropRock() returns (ok: bool, ghost settled: Rock)
      requires Valid()
      modifies this
      ensures ok <==> |rocks| > 0 && |directions| > 0 && Mark(old(occupied), settled.points).Some?
      ensures |rocks| > 0 && |directions| > 0 ==>
        && old(directionIndex) < |directions| && |rocks[old(rockIndex)].points| > 0
        && var start := Shift(rocks[old(rockIndex)], Point(2, old(heighest) + 4));
           var fall := FallFrom(old(occupied), start, directions, old(directionIndex));
           settled == fall.0 && directionIndex == fall.1
      ensures ok ==> Valid()
      ensures |rocks| > 0 && |directions| > 0 ==> !FitsIn(old(occupied), Shift(settled, DOWN))
      ensures ok ==> rockIndex == (old(rockIndex) + 1) % |rocks|
      ensures ok ==> Settled(old(occupied), old(heighest), old(growthHistory), old(directionsHistory), settled)
    {
      settled := Rock([]);
      if |rocks| == 0 || |directions| == 0 {
        return false, settled;
      }
      var rock := NextFall();
      settled := rock;
      ok := Settle(rock);
    }

    /** `next_rock` and the falling loop of `drop_rock`: the template index
        moves on, and the rock rests where `FallFrom` puts it. */
    method NextFall() returns (rock: Rock)
      requires Valid() && |rocks| > 0 && |directions| > 0
      modifies this`rockIndex, this`directionIndex
      ensures Valid() && rockIndex == (old(rockIndex) + 1) % |rocks|
      ensures old(directionIndex) < |directions| && |rocks[old(rockIndex)].points| > 0
      ensures (rock, directionIndex)
        == FallFrom(occupied, Shift(rocks[old(rockIndex)], Point(2, heighest + 4)), directions, old(directionIndex))
      ensures !FitsIn(occupied, Shift(rock, DOWN))
    {
      rock := NextRock();
      assert IsTemplate(rocks[old(rockIndex)]);
      rock := FallRock(rock);
    }

    /** The loop of `drop_rock` up to the blocked step down: the rock ends
        where `FallFrom` puts it and the jet index moves on past the last
        jet used. */
    method FallRock(start: Rock) returns (rock: Rock)
      requires JetsValid() && directionIndex < |directions| && |start.points| > 0
      modifies this`directionIndex
      ensures directionIndex < |directions|
      ensures (rock, directionIndex) == FallFrom(occupied, start, directions, old(directionIndex))
      ensures !FitsIn(occupied, Shift(rock, DOWN))
    {
      FallRests(occupied, start, directions, directionIndex);
      rock := start;
      ghost var fall := FallFrom(occupied, rock, directions, directionIndex);
      var blocked := false;
      while !blocked
        invariant |rock.points| > 0 && directionIndex < |directions|
        invariant !blocked ==> FallFrom(occupied, rock, directions, directionIndex) == fall
        invariant blocked ==> rock == fall.0 && directionIndex == fall.1
        decreases !blocked, rock.points[0].y
      {
        ghost var j := directionIndex;
        ghost var before := rock;
        var dir := NextDirection();
        var _, pushed := TryMove(rock, dir);
        assert pushed == Push(occupied, before, directions[j]);
        assert pushed.points[0].y == rock.points[0].y;
        var down, fallen := TryMove(pushed, DOWN);
        if down {
          assert Free(occupied, fallen.points[0]);
        } else {
          blocked := true;
        }
        rock := fallen;
      }
    }

    /** The resting part of `drop_rock`: the cells of `rock` are marked as
        `Mark` describes (failing exactly where it is None), the highest row
        becomes the largest of the old one and the rock's rows, and the
        growth and the jet index are appended to the histories. */
    method Settle(rock: Rock) returns (ok: bool)
      requires Valid()
      modifies this`occupied, this`heighest, this`growthHistory, this`directionsHistory
      ensures ok <==> Mark(old(occupied), rock.points).Some?
      ensures ok ==> Valid()
      ensures ok ==> Settled(old(occupied), old(heighest), old(growthHistory), old(directionsHistory), rock)
    {
      var prevHeight := heighest;
      for i := 0 to |rock.points|
        invariant growthHistory == old(growthHistory) && directionsHistory == old(directionsHistory)
        invariant heighest >= prevHeight && |occupied| == heighest + 1
        invariant RowsOfWidth(occupied)
        invariant Mark(old(occupied), rock.points) == Mark(occupied, rock.points[i..])
        invariant MaxRow(prevHeight, rock.points) == MaxRow(heighest, rock.points[i..])
      {
        var p := rock.points[i];
        assert rock.points[i..][0] == p && rock.points[i..][1..] == rock.points[i + 1..];
        if p.y < 0 || p.y > |occupied| || p.x < 0 || p.x >= WIDTH {
          return false;
        }
        if p.y == |occupied| {
          occupied := occupied + [seq(WIDTH, _ => false)];
        }
        occupied := occupied[p.y := occupied[p.y][p.x := true]];
        if p.y > heighest {
          heighest := p.y;
        }
      }
      assert rock.points[|rock.points|..] == [];
      SumAppend(growthHistory, [heighest - prevHeight]);
      assert Sum([heighest - prevHeight]) == heighest - prevHeight;
      growthHistory := growthHistory + [heighest - prevHeight];
      directionsHistory := directionsHistory + [directionIndex];
      return true;
    }

    /** The first part of `run`: drop `count` rocks; the tower is then
        `heighest + 1` rows tall, the sum of the recorded growths. */
    method TowerHeight(count: nat) returns (ok: bool, height: int)
      requires Valid()
      modifies this
      ensures ok ==> Valid() && |growthHistory| == old(|growthHistory|) + count
      ensures ok ==> height == heighest + 1 && height == Sum(growthHistory)
      ensures ok ==> old(growthHistory) <= growthHistory && height >= old(heighest) + 1
    {
      for i := 0 to count
        invariant Valid() && |growthHistory| == old(|growthHistory|) + i
        invariant old(growthHistory) <= growthHistory && heighest >= old(heighest)
      {
        ghost var h := heighest;
        var dropped, settled := DropRock();
        if !dropped {
          return false, 0;
        }
        MaxRowMeaning(h, settled.points);
      }
      return true, heighest + 1;
    }

    /** The last `20 * rocks` growth and jet entries recur from `start` on. */
    predicate RecursFrom(start: int)
      reads this
    {
      var n := 20 * |rocks|;
      var last := |growthHistory| - n;
      0 <= start <= last
        && SameRun(growthHistory, start, last, n)
        && SameRun(directionsHistory, start, last, n)
    }

    /** The last `20 * rocks` growth and jet entries recur `j` whole rounds
        of templates earlier. */
    ghost predicate RecursBack(j: nat)
      reads this
    {
      RecursFrom(|growthHistory| - 20 * |rocks| - j * |rocks|)
    }

    /** The histories recur `j` rounds back, at distance `d`, and at no
        nearer whole round. */
    lemma Found(j: nat, d: int)
      requires |rocks| > 0 && d == j * |rocks| && j >= 1
      requires RecursBack(j) && forall i :: 1 <= i < j ==> !RecursBack(i)
      ensures d > 0 && d % |rocks| == 0 && d / |rocks| == j
      ensures RecursBack(d / |rocks|) && forall i :: 1 <= i < d / |rocks| ==> !RecursBack(i)
    {
      ModUnique(d, |rocks|, j, 0);
      MulGrows(|rocks|, j);
    }

    /** Looking back `j` rounds reached the start of the history: no whole
        round back fits any more. */
    lemma NotFound(j: nat, start: int, last: int)
      requires |rocks| > 0 && 0 <= start < |rocks|
      requires last == j * |rocks| + start
      requires forall i :: 1 <= i <= j ==> !RecursBack(i)
      ensures forall i :: 1 <= i <= last / |rocks| ==> !RecursBack(i)
    {
      ModUnique(last, |rocks|, j, start);
    }

    /** `check_for_cycle`: only right after a full round of templates, and
        once at least 21 rounds are recorded, look back whole rounds from the
        last 20 rounds for the nearest start where both histories repeat. The
        result is the distance back: a positive multiple of the number of
        templates, the smallest one at which the histories recur. With no
        templates at all the distance is 0. */
    method CheckForCycle() returns (r: Option<nat>)
      ensures r.Some? ==> rockIndex == 0 && |growthHistory| >= 21 * |rocks|
      ensures r.Some? && |rocks| == 0 ==> r.value == 0
      ensures r.Some? && |rocks| > 0 ==>
        && r.value > 0 && r.value % |rocks| == 0
        && RecursBack(r.value / |rocks|)
        && (forall j :: 1 <= j < r.value / |rocks| ==> !RecursBack(j))
      ensures r.None? && rockIndex == 0 && |growthHistory| >= 21 * |rocks| ==>
        && |rocks| > 0
        && (forall j :: 1 <= j <= (|growthHistory| - 20 * |rocks|) / |rocks| ==> !RecursBack(j))
    {
      var total := |growthHistory|;
      var cycle := |rocks|;
      var n := 20 * cycle;
      if rockIndex == 0 && total >= n + cycle {
        if cycle == 0 {
          return Some(0);
        }
        r := LookBack(total - n);
        return r;
      }
      return None;
    }

    /** The loop of `check_for_cycle`: from one round before `last` (where
        the last 20 rounds begin), step back a round at a time while a
        whole round still fits, until both histories recur. */
    method LookBack(last: int) returns (r: Option<nat>)
      requires |rocks| > 0 && last == |growthHistory| - 20 * |rocks| && last >= |rocks|
      ensures r.Some? ==>
        && r.value > 0 && r.value % |rocks| == 0
        && RecursBack(r.value / |rocks|)
        && (forall j :: 1 <= j < r.value / |rocks| ==> !RecursBack(j))
      ensures r.None? ==> forall j :: 1 <= j <= last / |rocks| ==> !RecursBack(j)
    {
      var cycle := |rocks|;
      var start := last - cycle;
      ghost var j := 1;
      while true
        invariant 0 <= start && start + cycle <= last
        invariant j >= 1 && start == last - j * cycle
        invariant forall i :: 1 <= i < j ==> !RecursBack(i)
        decreases start
      {
        if RecursFrom(start) {
          var d := last - start;
          Found(j, d);
          return Some(d);
        } else if start < cycle {
          NotFound(j, start, last);
          return None;
        } else {
          var start' := start - cycle;
          BackStep(last, cycle, j, start, start');
          start := start';
          j := j + 1;
        }
      }
    }
  }

  lemma BackStep(last: int, cycle: int, j: int, start: int, start': int)
    requires start == last - j * cycle && start' == start - cycle
    ensures start' == last - (j + 1) * cycle
  {
  }
}
