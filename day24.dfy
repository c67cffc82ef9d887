/** Blizzard basin (day 24): blizzards move one cell per minute and wrap
    around inside the walls; the set of cells the expedition could be in is
    advanced minute by minute until it contains the target. */
module Day24 {
  import opened Common

  /** `(x, y)` with y growing downwards; coordinates are `usize`. */
  type Point = (nat, nat)

  datatype Direction = Down | Right | Left | Up

  datatype Blizzard = Blizzard(position: Point, direction: Direction)

  /** A cell strictly inside the walls. */
  predicate Interior(p: Point, width: nat, height: nat)
  {
    1 <= p.0 && p.0 + 2 <= width && 1 <= p.1 && p.1 + 2 <= height
  }

  /** One blizzard after one minute; None where the source's `usize`
      subtraction `width - 2` or `height - 2` would underflow. */
  function Moved(b: Blizzard, width: nat, height: nat): Option<Blizzard>
  {
    var (x, y) := b.position;
    match b.direction
    case Up =>
      if y > 1 then Some(b.(position := (x, y - 1)))
      else if height >= 2 then Some(b.(position := (x, height - 2))) else None
    case Left =>
      if x > 1 then Some(b.(position := (x - 1, y)))
      else if width >= 2 then Some(b.(position := (width - 2, y))) else None
    case Down => Some(b.(position := (x, if y + 2 < height then y + 1 else 1)))
    case Right => Some(b.(position := (if x + 2 < width then x + 1 else 1, y)))
  }

  /** A blizzard keeps its direction and moves along it only; one that starts
      inside the walls stays inside, and its coordinate along its direction
      advances by one modulo the interior length. */
  lemma MovedFacts(b: Blizzard, width: nat, height: nat)
    ensures Moved(b, width, height).Some? ==> Moved(b, width, height).value.direction == b.direction
    ensures Moved(b, width, height).Some? && (b.direction.Up? || b.direction.Down?) ==>
      Moved(b, width, height).value.position.0 == b.position.0
    ensures Moved(b, width, height).Some? && (b.direction.Left? || b.direction.Right?) ==>
      Moved(b, width, height).value.position.1 == b.position.1
    ensures Interior(b.position, width, height) ==> (
      && Moved(b, width, height).Some?
      && Interior(Moved(b, width, height).value.position, width, height)
      && Moved(b, width, height).value.position == match b.direction
        case Right => (1 + b.position.0 % (width - 2), b.position.1)
        case Left => (1 + (b.position.0 - 2) % (width - 2), b.position.1)
        case Down => (b.position.0, 1 + b.position.1 % (height - 2))
        case Up => (b.position.0, 1 + (b.position.1 - 2) % (height - 2)))
  {
    var (x, y) := b.position;
    if Interior(b.position, width, height) {
      WrapForward(x, width - 2);
      WrapBackward(x, width - 2);
      WrapForward(y, height - 2);
      WrapBackward(y, height - 2);
    }
  }

  lemma WrapForward(c: int, m: int)
    requires 1 <= c <= m
    ensures 1 + c % m == if c < m then c + 1 else 1
  {
    if c < m {
      ModUnique(c, m, 0, c);
    } else {
      ModUnique(c, m, 1, 0);
    }
  }

  lemma WrapBackward(c: int, m: int)
    requires 1 <= c <= m
    ensures 1 + (c - 2) % m == if c > 1 then c - 1 else m
  {
    if c > 1 {
      ModUnique(c - 2, m, 0, c - 2);
    } else {
      ModUnique(c - 2, m, -1, m - 1);
    }
  }

  /** Every blizzard moved, or None if one of them panics. */
  function MoveAll(bs: seq<Blizzard>, width: nat, height: nat): (r: Option<seq<Blizzard>>)
    ensures r.Some? ==> |r.value| == |bs|
    ensures r.Some? ==> forall i :: 0 <= i < |bs| ==> Moved(bs[i], width, height) == Some(r.value[i])
  {
    if bs == [] then Some([])
    else
      match (MoveAll(bs[..|bs| - 1], width, height), Moved(bs[|bs| - 1], width, height))
      case (Some(front), Some(last)) => Some(front + [last])
      case _ => None
  }

  lemma {:induction false} MoveAllNoneGrows(bs: seq<Blizzard>, i: nat, width: nat, height: nat)
    requires i <= |bs| && MoveAll(bs[..i], width, height).None?
    ensures MoveAll(bs, width, height).None?
    decreases |bs| - i
  {
    if i < |bs| {
      assert bs[..i + 1][..i] == bs[..i];
      MoveAllNoneGrows(bs, i + 1, width, height);
    } else {
      assert bs[..i] == bs;
    }
  }

  /** A map whose blizzards are all inside the walls keeps them there, and
      keeps their number and directions. */
  lemma MoveAllInterior(bs: seq<Blizzard>, width: nat, height: nat)
    requires forall i :: 0 <= i < |bs| ==> Interior(bs[i].position, width, height)
    ensures MoveAll(bs, width, height).Some?
    ensures forall i :: 0 <= i < |bs| ==> (
      && Interior(MoveAll(bs, width, height).value[i].position, width, height)
      && MoveAll(bs, width, height).value[i].direction == bs[i].direction)
  {
    forall i | 0 <= i < |bs|
      ensures Moved(bs[i], width, height).Some?
    {
      MovedFacts(bs[i], width, height);
    }
    if MoveAll(bs, width, height).None? {
      MoveAllNone(bs, width, height);
    }
    forall i | 0 <= i < |bs|
      ensures Interior(MoveAll(bs, width, height).value[i].position, width, height)
      ensures MoveAll(bs, width, height).value[i].direction == bs[i].direction
    {
      MovedFacts(bs[i], width, height);
    }
  }

  lemma {:induction false} MoveAllNone(bs: seq<Blizzard>, width: nat, height: nat)
    requires MoveAll(bs, width, height).None?
    ensures exists i :: 0 <= i < |bs| && Moved(bs[i], width, height).None?
  {
    var n := |bs|;
    if Moved(bs[n - 1], width, height).Some? {
      MoveAllNone(bs[..n - 1], width, height);
      var i :| 0 <= i < n - 1 && Moved(bs[..n - 1][i], width, height).None?;
      assert bs[..n - 1][i] == bs[i];
    }
  }

  /** `calc_occupied`: the cells holding at least one blizzard. */
  function Occupied(bs: seq<Blizzard>): set<Point>
  {
    set i | 0 <= i < |bs| :: bs[i].position
  }

  /** A cell of the outer wall other than the start and the goal. */
  predicate OnWall(p: Point, width: nat, height: nat, start: Point, goal: Point)
  {
    (p.0 == 0 || p.1 == 0 || p.0 + 1 == width || p.1 + 1 == height) && p != start && p != goal
  }

  /** The cells tried from `p`: staying, and the four neighbours that have
      `usize` coordinates. */
  function Candidates(p: Point): set<Point>
  {
    {p}
      + (if p.0 > 0 then {(p.0 - 1, p.1)} else {})
      + (if p.1 > 0 then {(p.0, p.1 - 1)} else {})
      + {(p.0 + 1, p.1)} + {(p.0, p.1 + 1)}
  }

  function Dist(p: Point, q: Point): nat
  {
    Abs(p.0 - q.0) + Abs(p.1 - q.1)
  }

  /** The candidates are exactly the cells at most one step away. */
  lemma CandidatesNear(p: Point, q: Point)
    ensures q in Candidates(p) <==> Dist(p, q) <= 1
  {
    if Dist(p, q) <= 1 {
      if q.0 < p.0 {
        assert q == (p.0 - 1, p.1);
      } else if q.1 < p.1 {
        assert q == (p.0, p.1 - 1);
      }
    }
  }

  /** `maybe_insert`'s test: not a wall cell and not under a blizzard. */
  predicate Free(q: Point, occupied: set<Point>, width: nat, height: nat, start: Point, goal: Point)
  {
    !OnWall(q, width, height, start, goal) && q !in occupied
  }

  /** The possible positions after one minute. */
  function Next(possible: set<Point>, occupied: set<Point>, width: nat, height: nat, start: Point, goal: Point): set<Point>
  {
    set p, q | p in possible && q in Candidates(p) && Free(q, occupied, width, height, start, goal) :: q
  }

  /** A cell is possible next exactly when it is free and at most one step
      from a cell possible now. */
  lemma NextMeaning(possible: set<Point>, occupied: set<Point>, width: nat, height: nat, start: Point, goal: Point, q: Point)
    ensures q in Next(possible, occupied, width, height, start, goal) <==>
      Free(q, occupied, width, height, start, goal) && exists p :: p in possible && Dist(p, q) <= 1
  {
    if q in Next(possible, occupied, width, height, start, goal) {
      var p :| p in possible && q in Candidates(p);
      CandidatesNear(p, q);
    }
    if Free(q, occupied, width, height, start, goal) && exists p :: p in possible && Dist(p, q) <= 1 {
      var p :| p in possible && Dist(p, q) <= 1;
      CandidatesNear(p, q);
    }
  }

  lemma NextAdd(done: set<Point>, p: Point, occupied: set<Point>, width: nat, height: nat, start: Point, goal: Point)
    ensures Next(done + {p}, occupied, width, height, start, goal)
      == Next(done, occupied, width, height, start, goal) + FreeOf(Candidates(p), occupied, width, height, start, goal)
  {
  }

  /** The free cells of `s`. */
  function FreeOf(s: set<Point>, occupied: set<Point>, width: nat, height: nat, start: Point, goal: Point): set<Point>
  {
    set q | q in s && Free(q, occupied, width, height, start, goal)
  }

  lemma FreeOfAdd(s: set<Point>, q: Point, occupied: set<Point>, width: nat, height: nat, start: Point, goal: Point)
    ensures FreeOf(s + {q}, occupied, width, height, start, goal)
      == FreeOf(s, occupied, width, height, start, goal) + (if Free(q, occupied, width, height, start, goal) then {q} else {})
  {
  }

  /** The state that `run` advances. */
  datatype World = World(blizzards: seq<Blizzard>, possible: set<Point>, time: nat)

  /** One iteration of `run`: the clock advances, the blizzards move, and
      only then are the next positions computed. */
  function Advance(w: World, width: nat, height: nat, start: Point, goal: Point): (r: Option<World>)
    ensures r.Some? ==> r.value.time == w.time + 1 && |r.value.blizzards| == |w.blizzards|
  {
    match MoveAll(w.blizzards, width, height)
    case None => None
    case Some(bs) => Some(World(bs, Next(w.possible, Occupied(bs), width, height, start, goal), w.time + 1))
  }

  /** `run` with at most `fuel` iterations: the time of the first iteration
      after which `target` is possible; None if that takes longer or a
      blizzard panics. */
  function Search(w: World, target: Point, fuel: nat, width: nat, height: nat, start: Point, goal: Point): Option<nat>
    decreases fuel
  {
    if fuel == 0 then None
    else
      match Advance(w, width, height, start, goal)
      case None => None
      case Some(w') =>
        if target in w'.possible then Some(w'.time) else Search(w', target, fuel - 1, width, height, start, goal)
  }

  /** The world after `k` iterations. */
  function AdvanceN(w: World, k: nat, width: nat, height: nat, start: Point, goal: Point): (r: Option<World>)
    ensures r.Some? ==> r.value.time == w.time + k
    decreases k
  {
    if k == 0 then Some(w)
    else
      match Advance(w, width, height, start, goal)
      case None => None
      case Some(w') => AdvanceN(w', k - 1, width, height, start, goal)
  }

  ghost predicate ReachedAt(w: World, target: Point, k: nat, width: nat, height: nat, start: Point, goal: Point)
  {
    AdvanceN(w, k, width, height, start, goal).Some? && target in AdvanceN(w, k, width, height, start, goal).value.possible
  }

  /** The converse of `SearchFirst`: when the target is possible after some
      iteration within the bound, the search answers, and no later than
      that iteration. */
  lemma {:induction false} SearchFinds(w: World, target: Point, fuel: nat, k: nat,
                                       width: nat, height: nat, start: Point, goal: Point)
    requires 1 <= k <= fuel && ReachedAt(w, target, k, width, height, start, goal)
    ensures Search(w, target, fuel, width, height, start, goal).Some?
    ensures Search(w, target, fuel, width, height, start, goal).value <= w.time + k
    decreases k
  {
    var w' := Advance(w, width, height, start, goal).value;
    assert AdvanceN(w, k, width, height, start, goal) == AdvanceN(w', k - 1, width, height, start, goal);
    if target !in w'.possible {
      if k == 1 {
        assert false;
      } else {
        SearchFinds(w', target, fuel - 1, k - 1, width, height, start, goal);
      }
    }
  }

  /** The answer is the first iteration after which the target is possible,
      and more iterations do not change it. */
  lemma {:induction false} SearchFirst(w: World, target: Point, fuel: nat, width: nat, height: nat, start: Point, goal: Point)
    requires Search(w, target, fuel, width, height, start, goal).Some?
    ensures exists k :: (
      && 1 <= k <= fuel
      && ReachedAt(w, target, k, width, height, start, goal)
      && Search(w, target, fuel, width, height, start, goal).value == w.time + k
      && (forall j :: 1 <= j < k ==> !ReachedAt(w, target, j, width, height, start, goal)))
    ensures forall more: nat :: more >= fuel ==>
      Search(w, target, more, width, height, start, goal) == Search(w, target, fuel, width, height, start, goal)
    decreases fuel
  {
    var w' := Advance(w, width, height, start, goal).value;
    assert AdvanceN(w, 1, width, height, start, goal) == Some(w');
    if target in w'.possible {
      assert ReachedAt(w, target, 1, width, height, start, goal);
    } else {
      SearchFirst(w', target, fuel - 1, width, height, start, goal);
      var k :| 1 <= k <= fuel - 1
        && ReachedAt(w', target, k, width, height, start, goal)
        && Search(w', target, fuel - 1, width, height, start, goal).value == w'.time + k
        && (forall j :: 1 <= j < k ==> !ReachedAt(w', target, j, width, height, start, goal));
      assert AdvanceN(w, k + 1, width, height, start, goal) == AdvanceN(w', k, width, height, start, goal);
      forall j | 1 <= j < k + 1
        ensures !ReachedAt(w, target, j, width, height, start, goal)
      {
        assert AdvanceN(w, j, width, height, start, goal) == AdvanceN(w', j - 1, width, height, start, goal);
        if j == 1 {
          assert AdvanceN(w', 0, width, height, start, goal) == Some(w');
        } else {
          assert !ReachedAt(w', target, j - 1, width, height, start, goal);
        }
      }
      assert ReachedAt(w, target, k + 1, width, height, start, goal);
      forall more: nat | more >= fuel
        ensures Search(w, target, more, width, height, start, goal) == Search(w, target, fuel, width, height, start, goal)
      {
        assert Search(w', target, more - 1, width, height, start, goal) == Search(w', target, fuel - 1, width, height, start, goal);
      }
    }
  }

  // ---------------------------------------------------------------------------
  // Parsing

  function DirectionOf(c: char): Option<Direction>
  {
    if c == '^' then Some(Up)
    else if c == '<' then Some(Left)
    else if c == '>' then Some(Right)
    else if c == 'v' then Some(Down)
    else None
  }

  /** The blizzards drawn on row `y`, left to right. */
  function RowBlizzards(line: string, y: nat): seq<Blizzard>
  {
    if line == [] then []
    else
      var x := |line| - 1;
      RowBlizzards(line[..x], y) + (match DirectionOf(line[x]) case Some(d) => [Blizzard((x, y), d)] case None => [])
  }

  /** The blizzards of the whole map, row by row. */
  function BlizzardsIn(lines: seq<string>): seq<Blizzard>
  {
    if lines == [] then [] else BlizzardsIn(lines[..|lines| - 1]) + RowBlizzards(lines[|lines| - 1], |lines| - 1)
  }

  /** A blizzard is listed exactly for each arrow on the map, at the arrow's
      cell and in the arrow's direction. */
  ghost predicate Drawn(lines: seq<string>, b: Blizzard)
  {
    b.position.1 < |lines| && b.position.0 < |lines[b.position.1]|
      && DirectionOf(lines[b.position.1][b.position.0]) == Some(b.direction)
  }

  lemma {:induction false} RowBlizzardsMeaning(line: string, y: nat, b: Blizzard)
    ensures b in RowBlizzards(line, y) <==>
      b.position.1 == y && b.position.0 < |line| && DirectionOf(line[b.position.0]) == Some(b.direction)
  {
    if line != [] {
      var x := |line| - 1;
      RowBlizzardsMeaning(line[..x], y, b);
      if b.position.0 < x {
        assert line[..x][b.position.0] == line[b.position.0];
      }
    }
  }

  lemma {:induction false} BlizzardsInMeaning(lines: seq<string>, b: Blizzard)
    ensures b in BlizzardsIn(lines) <==> Drawn(lines, b)
  {
    if lines != [] {
      var n := |lines| - 1;
      BlizzardsInMeaning(lines[..n], b);
      RowBlizzardsMeaning(lines[n], n, b);
      if b.position.1 < n {
        assert lines[..n][b.position.1] == lines[b.position.1];
      }
    }
  }

  /** The inner loop of `Solver::parse`: the arrows of one row. */
  method ScanRow(line: string, y: nat) returns (found: seq<Blizzard>)
    ensures found == RowBlizzards(line, y)
  {
    found := [];
    for x := 0 to |line|
      invariant found == RowBlizzards(line[..x], y)
    {
      assert line[..x + 1][..x] == line[..x];
      match DirectionOf(line[x]) {
        case Some(d) => found := found + [Blizzard((x, y), d)];
        case None =>
      }
    }
    assert line[..|line|] == line;
  }

  class Solver {
    var width: nat
    var height: nat
    var start: Point
    var goal: Point
    var blizzards: seq<Blizzard>
    var time: nat
    var possible: set<Point>

    constructor(width: nat, height: nat, blizzards: seq<Blizzard>)
      requires width >= 2 && height >= 1
      ensures this.width == width && this.height == height && this.blizzards == blizzards
      ensures start == (1, 0) && goal == (width - 2, height - 1)
      ensures time == 0 && possible == {(1, 0)}
    {
      this.width := width;
      this.height := height;
      start := (1, 0);
      goal := (width - 2, height - 1);
      this.blizzards := blizzards;
      time := 0;
      possible := {(1, 0)};
    }

    ghost function Current(): World
      reads this
    {
      World(blizzards, possible, time)
    }

    /** `move_blizzards`: every blizzard moved in place, in order. */
    method MoveBlizzards() returns (ok: bool)
      modifies this`blizzards
      ensures ok <==> MoveAll(old(blizzards), width, height).Some?
      ensures ok ==> blizzards == MoveAll(old(blizzards), width, height).value
    {
      ghost var orig := blizzards;
      for i := 0 to |blizzards|
        invariant |blizzards| == |orig| && blizzards[i..] == orig[i..]
        invariant MoveAll(orig[..i], width, height) == Some(blizzards[..i])
      {
        assert orig[..i + 1][..i] == orig[..i];
        var m := Moved(blizzards[i], width, height);
        if m.None? {
          MoveAllNoneGrows(orig, i + 1, width, height);
          return false;
        }
        blizzards := blizzards[i := m.value];
        assert blizzards[..i + 1] == blizzards[..i] + [m.value];
      }
      assert orig[..|orig|] == orig && blizzards[..|blizzards|] == blizzards;
      return true;
    }

    /** The positions loop of `run`: try every candidate of every possible
        cell. */
    method NextPositions(occupied: set<Point>) returns (next: set<Point>)
      ensures next == Next(possible, occupied, width, height, start, goal)
    {
      next := {};
      var remaining := possible;
      while remaining != {}
        invariant remaining <= possible
        invariant next == Next(possible - remaining, occupied, width, height, start, goal)
        decreases |remaining|
      {
        var p :| p in remaining;
        next := InsertCandidates(next, p, occupied);
        NextAdd(possible - remaining, p, occupied, width, height, start, goal);
        assert possible - (remaining - {p}) == (possible - remaining) + {p};
        remaining := remaining - {p};
      }
    }

    /** The body of the positions loop for one possible cell `p`. */
    method InsertCandidates(next: set<Point>, p: Point, occupied: set<Point>) returns (next': set<Point>)
      ensures next' == next + FreeOf(Candidates(p), occupied, width, height, start, goal)
    {
      ghost var done: set<Point> := {};
      assert FreeOf(done, occupied, width, height, start, goal) == {};
      next' := next;
      next', done := InsertOne(next', p, occupied, next, done);
      assert done == {p};
      if p.0 > 0 {
        next', done := InsertOne(next', (p.0 - 1, p.1), occupied, next, done);
      }
      assert done == {p} + (if p.0 > 0 then {(p.0 - 1, p.1)} else {});
      if p.1 > 0 {
        next', done := InsertOne(next', (p.0, p.1 - 1), occupied, next, done);
      }
      assert done == {p} + (if p.0 > 0 then {(p.0 - 1, p.1)} else {}) + (if p.1 > 0 then {(p.0, p.1 - 1)} else {});
      next', done := InsertOne(next', (p.0 + 1, p.1), occupied, next, done);
      next', done := InsertOne(next', (p.0, p.1 + 1), occupied, next, done);
    }

    /** `maybe_insert` for one candidate `q`, with the candidates handled so
        far. */
    method InsertOne(cur: set<Point>, q: Point, occupied: set<Point>, ghost next: set<Point>, ghost done: set<Point>)
      returns (cur': set<Point>, ghost done': set<Point>)
      requires cur == next + FreeOf(done, occupied, width, height, start, goal)
      ensures done' == done + {q}
      ensures cur' == next + FreeOf(done', occupied, width, height, start, goal)
    {
      FreeOfAdd(done, q, occupied, width, height, start, goal);
      cur' := MaybeInsert(cur, q, occupied);
      done' := done + {q};
    }

    /** `maybe_insert`. */
    method MaybeInsert(next: set<Point>, q: Point, occupied: set<Point>) returns (next': set<Point>)
      ensures next' == if Free(q, occupied, width, height, start, goal) then next + {q} else next
    {
      var onWall := (q.0 == 0 || q.1 == 0 || q.0 + 1 == width || q.1 + 1 == height) && q != start && q != goal;
      next' := next;
      if !onWall && q !in occupied {
        next' := next' + {q};
      }
    }

    /** One iteration of `run`. */
    method Tick() returns (ok: bool)
      modifies this`time, this`blizzards, this`possible
      ensures ok <==> Advance(old(Current()), width, height, start, goal).Some?
      ensures ok ==> Current() == Advance(old(Current()), width, height, start, goal).value
    {
      time := time + 1;
      ok := MoveBlizzards();
      if !ok {
        return;
      }
      var occupied := Occupied(blizzards);
      possible := NextPositions(occupied);
    }

    /** `run`, with at most `fuel` iterations (the source loops until the
        target is reached). */
    method Run(target: Point, fuel: nat) returns (r: Option<nat>)
      modifies this`time, this`blizzards, this`possible
      ensures r == Search(old(Current()), target, fuel, width, height, start, goal)
    {
      ghost var w0 := Current();
      var k := 0;
      while k < fuel
        invariant 0 <= k <= fuel
        invariant Search(w0, target, fuel, width, height, start, goal) == Search(Current(), target, fuel - k, width, height, start, goal)
      {
        ghost var w := Current();
        var ok := Tick();
        if !ok {
          return None;
        }
        if target in possible {
          return Some(time);
        }
        k := k + 1;
      }
      return None;
    }
  }

  /** `Solver::parse`: the map's size from its lines, the start at (1, 0),
      the goal at (width - 2, height - 1), one blizzard per arrow, time 0,
      and only the start possible. An empty map or one narrower than two
      cells is a panic (None). */
  method ParseSolver(lines: seq<string>) returns (s: Option<Solver>)
    ensures s.Some? <==> |lines| > 0 && |lines[0]| >= 2
    ensures s.Some? ==> (
      && fresh(s.value)
      && s.value.width == |lines[0]| && s.value.height == |lines|
      && s.value.start == (1, 0) && s.value.goal == (|lines[0]| - 2, |lines| - 1)
      && s.value.blizzards == BlizzardsIn(lines)
      && s.value.time == 0 && s.value.possible == {(1, 0)})
  {
    if |lines| == 0 || |lines[0]| < 2 {
      return None;
    }
    var blizzards: seq<Blizzard> := [];
    for y := 0 to |lines|
      invariant blizzards == BlizzardsIn(lines[..y])
    {
      assert lines[..y + 1][..y] == lines[..y];
      var row := ScanRow(lines[y], y);
      blizzards := blizzards + row;
    }
    assert lines[..|lines|] == lines;
    var solver := new Solver(|lines[0]|, |lines|, blizzards);
    return Some(solver);
  }
}
