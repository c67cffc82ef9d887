/** Rope knots (day 9): the head knot is moved one unit at a time, every
    later knot follows the knot before it, and the positions the last knot
    visits are collected. */
module Day09 {
  import opened Common
  import opened Util

  datatype Point = Point(x: int, y: int)

  const Origin := Point(0, 0)

  function Add(a: Point, b: Point): Point { Point(a.x + b.x, a.y + b.y) }

  function Sub(a: Point, b: Point): Point { Point(a.x - b.x, a.y - b.y) }

  /** The larger of the two coordinate distances (the king's-move distance). */
  function Chebyshev(d: Point): nat { if Abs(d.x) < Abs(d.y) then Abs(d.y) else Abs(d.x) }

  /** `step_towards`: when `other` is two apart in some coordinate, move one
      unit towards it along each coordinate that differs; otherwise stay. */
  function StepTowards(self: Point, other: Point): Point
  {
    var diff := Sub(other, self);
    if Abs(diff.x) == 2 || Abs(diff.y) == 2 then Add(self, Point(Sign(diff.x), Sign(diff.y)))
    else self
  }

  /** A knot within distance 2 of the knot it follows ends up touching it,
      moving at most one unit per coordinate; a knot already touching stays. */
  lemma StepTowardsFacts(self: Point, other: Point)
    requires Chebyshev(Sub(other, self)) <= 2
    ensures Chebyshev(Sub(other, StepTowards(self, other))) <= 1
    ensures Chebyshev(Sub(StepTowards(self, other), self)) <= 1
    ensures Chebyshev(Sub(other, self)) <= 1 ==> StepTowards(self, other) == self
  {
  }

  /** Adjacent knots touch. */
  ghost predicate Taut(knots: seq<Point>)
  {
    forall i :: 1 <= i < |knots| ==> Chebyshev(Sub(knots[i - 1], knots[i])) <= 1
  }

  /** The knots after the head has moved to `head`: each later knot takes one
      `step_towards` the new position of the knot before it, front to back. */
  function Follow(knots: seq<Point>, head: Point): (r: seq<Point>)
    ensures |r| == |knots|
    ensures |knots| > 0 ==> r[0] == head
  {
    if |knots| == 0 then []
    else if |knots| == 1 then [head]
    else
      var front := Follow(knots[..|knots| - 1], head);
      front + [StepTowards(knots[|knots| - 1], front[|knots| - 2])]
  }

  lemma FollowSnoc(knots: seq<Point>, head: Point, i: nat, i': nat)
    requires 1 <= i < |knots| && i' == i + 1
    ensures Follow(knots[..i'], head) == Follow(knots[..i], head) + [StepTowards(knots[i], Follow(knots[..i], head)[i - 1])]
  {
    assert knots[..i'][..i] == knots[..i];
  }

  /** Moving the head of a taut rope by at most one unit per coordinate keeps
      the rope taut, and every knot moves by at most one unit per coordinate. */
  lemma {:induction false} FollowTaut(knots: seq<Point>, head: Point)
    requires Taut(knots) && |knots| > 0 && Chebyshev(Sub(head, knots[0])) <= 1
    ensures Taut(Follow(knots, head))
    ensures forall k :: 0 <= k < |knots| ==> Chebyshev(Sub(Follow(knots, head)[k], knots[k])) <= 1
  {
    var n := |knots|;
    if n > 1 {
      var front := Follow(knots[..n - 1], head);
      FollowTaut(knots[..n - 1], head);
      var prev, cur := front[n - 2], knots[n - 1];
      assert Chebyshev(Sub(knots[n - 2], cur)) <= 1;
      assert Chebyshev(Sub(prev, knots[n - 2])) <= 1;
      StepTowardsFacts(cur, prev);
    }
  }

  /** The rope, with its knots updated in place. */
  class Rope {
    var knots: array<Point>
    var tailSet: set<Point>

    /** The knots touch and the last one's position is recorded. */
    ghost predicate Valid()
      reads this, knots
    {
      Taut(knots[..]) && (knots.Length > 0 ==> knots[knots.Length - 1] in tailSet)
    }

    /** `Rope::new`: every knot at the origin, and the origin recorded. */
    constructor(knotCount: nat)
      ensures knots.Length == knotCount && fresh(knots)
      ensures forall i :: 0 <= i < knotCount ==> knots[i] == Origin
      ensures tailSet == {Origin}
      ensures Valid()
    {
      knots := new Point[knotCount](_ => Origin);
      tailSet := {Origin};
    }

    /** The loop of `move_head`: the head goes to `head`, then each later
        knot steps towards the one before it. */
    method MoveKnots(head: Point)
      requires knots.Length > 0
      modifies knots
      ensures knots[..] == Follow(old(knots[..]), head)
    {
      ghost var before := knots[..];
      knots[0] := head;
      assert knots[..1] == Follow(before[..1], head);
      for i := 1 to knots.Length
        invariant knots[..i] == Follow(before[..i], head)
        invariant knots[i..] == before[i..]
      {
        ghost var done := knots[..i];
        ghost var next := i + 1;
        FollowSnoc(before, head, i, next);
        assert knots[i] == before[i] && knots[i - 1] == done[i - 1];
        knots[i] := StepTowards(knots[i], knots[i - 1]);
        assert knots[..next] == done + [knots[i]];
        assert knots[next..] == before[next..];
      }
      assert knots[..] == knots[..knots.Length] && before == before[..knots.Length];
    }

    /** `move_head`: move the head by `delta`, let every later knot follow
        in order, and record where the last knot now is. A rope without knots
        is the source's out-of-bounds panic. */
    method MoveHead(delta: Point) returns (ok: bool)
      modifies knots, this`tailSet
      ensures ok <==> knots.Length > 0
      ensures ok ==> knots[..] == Follow(old(knots[..]), Add(old(knots[0]), delta))
      ensures ok ==> tailSet == old(tailSet) + {knots[knots.Length - 1]}
      ensures !ok ==> tailSet == old(tailSet)
      ensures old(Valid()) && Chebyshev(delta) <= 1 ==> Valid()
    {
      if knots.Length == 0 {
        return false;
      }
      ghost var before := knots[..];
      var head := Add(knots[0], delta);
      MoveKnots(head);
      tailSet := tailSet + {knots[knots.Length - 1]};
      if Taut(before) && Chebyshev(delta) <= 1 {
        assert Sub(head, before[0]) == delta;
        FollowTaut(before, head);
        assert Taut(knots[..]);
      }
      return true;
    }
  }

  /** A line "R 4": a unit direction and a number of steps. */
  datatype Command = Command(delta: Point, steps: nat)

  const U32_MAX := 0xFFFF_FFFF

  function DeltaOf(s: string): Option<Point>
  {
    if s == "R" then Some(Point(1, 0))
    else if s == "L" then Some(Point(-1, 0))
    else if s == "U" then Some(Point(0, 1))
    else if s == "D" then Some(Point(0, -1))
    else None
  }

  /** `Command::parse`: the first token names the direction and the second
      the number of steps (a `u32`); anything else is a panic (None). */
  function ParseCommand(line: string): (r: Option<Command>)
    ensures r.Some? ==> Chebyshev(r.value.delta) == 1 && (r.value.delta.x == 0 || r.value.delta.y == 0)
  {
    var tokens := Tokenize(line);
    if |tokens| < 2 then None
    else
      match (DeltaOf(tokens[0]), ParseNat(tokens[1]))
      case (Some(d), Some(n)) => if n <= U32_MAX then Some(Command(d, n)) else None
      case _ => None
  }

  function ShowCommand(c: Command): string
    requires Chebyshev(c.delta) == 1 && (c.delta.x == 0 || c.delta.y == 0)
  {
    var letter := if c.delta.x == 1 then "R" else if c.delta.x == -1 then "L"
      else if c.delta.y == 1 then "U" else "D";
    Unwords([letter, ShowNat(c.steps)])
  }

  /** Writing a command and reading it back gives the command. */
  lemma ParseShowCommand(c: Command)
    requires Chebyshev(c.delta) == 1 && (c.delta.x == 0 || c.delta.y == 0) && c.steps <= U32_MAX
    ensures ParseCommand(ShowCommand(c)) == Some(c)
  {
    var letter := if c.delta.x == 1 then "R" else if c.delta.x == -1 then "L"
      else if c.delta.y == 1 then "U" else "D";
    var digits := ShowNat(c.steps);
    forall i | 0 <= i < |digits|
      ensures !IsWhitespace(digits[i])
    {
      assert IsDigit(digits[i]);
    }
    assert NoWhitespace(letter);
    TokenizeUnwords([letter, digits]);
    ParseShowNat(c.steps);
  }

  /** The number of head moves the lines ask for, a line that does not
      parse counting none. */
  function StepsOf(lines: seq<string>): nat
  {
    if lines == [] then 0
    else
      StepsOf(lines[..|lines| - 1])
      + match ParseCommand(lines[|lines| - 1]) case Some(c) => c.steps case None => 0
  }

  /** `n` copies of the unit move `d`. */
  function Repeat(d: Point, n: nat): (r: seq<Point>)
    ensures |r| == n && forall i :: 0 <= i < n ==> r[i] == d
  {
    seq(n, _ => d)
  }

  /** The unit moves of the head for all lines, in order; None where a line
      does not parse (the source's panic). */
  function Moves(lines: seq<string>): Option<seq<Point>>
  {
    if lines == [] then Some([])
    else
      match (Moves(lines[..|lines| - 1]), ParseCommand(lines[|lines| - 1]))
      case (Some(front), Some(c)) => Some(front + Repeat(c.delta, c.steps))
      case _ => None
  }

  /** The moves of the lines read so far start the moves of all lines. */
  lemma {:induction false} MovesPrefix(lines: seq<string>, j: nat)
    requires j <= |lines| && Moves(lines).Some?
    ensures Moves(lines[..j]).Some? && |Moves(lines[..j]).value| <= |Moves(lines).value|
    decreases |lines|
  {
    if j < |lines| {
      var front := lines[..|lines| - 1];
      assert front[..j] == lines[..j];
      MovesPrefix(front, j);
    } else {
      assert lines[..j] == lines;
    }
  }

  /** There is one unit move per step of every command. */
  lemma {:induction false} MovesSteps(lines: seq<string>)
    requires Moves(lines).Some?
    ensures |Moves(lines).value| == StepsOf(lines)
    decreases |lines|
  {
    if lines != [] {
      MovesSteps(lines[..|lines| - 1]);
    }
  }

  /** The knots and the positions the last knot has visited. */
  datatype RopeState = RopeState(knots: seq<Point>, visited: set<Point>)

  /** `Rope::new`. */
  function Start(knotCount: nat): RopeState
  {
    RopeState(seq(knotCount, _ => Origin), {Origin})
  }

  /** One `move_head` on values. */
  function Pull(s: RopeState, delta: Point): (r: RopeState)
    requires |s.knots| > 0
    ensures |r.knots| == |s.knots|
  {
    var knots := Follow(s.knots, Add(s.knots[0], delta));
    RopeState(knots, s.visited + {knots[|knots| - 1]})
  }

  /** The rope after every move of `moves`, in order. */
  function Simulate(s: RopeState, moves: seq<Point>): (r: RopeState)
    requires |s.knots| > 0
    ensures |r.knots| == |s.knots|
  {
    if moves == [] then s else Pull(Simulate(s, moves[..|moves| - 1]), moves[|moves| - 1])
  }

  /** The visited positions only grow, by at most one per move. */
  lemma {:induction false} SimulateVisited(s: RopeState, moves: seq<Point>)
    requires |s.knots| > 0
    ensures s.visited <= Simulate(s, moves).visited
    ensures |Simulate(s, moves).visited| <= |s.visited| + |moves|
  {
    if moves != [] {
      var front := Simulate(s, moves[..|moves| - 1]);
      SimulateVisited(s, moves[..|moves| - 1]);
      var r := Simulate(s, moves);
      assert r.visited <= front.visited + {r.knots[|r.knots| - 1]};
      SubsetCardBound(r.visited, front.visited, r.knots[|r.knots| - 1]);
    }
  }

  lemma SubsetCardBound(a: set<Point>, b: set<Point>, p: Point)
    requires a <= b + {p}
    ensures |a| <= |b| + 1
  {
    assert |b + {p}| <= |b| + 1;
    SubsetCardLe(a, b + {p});
  }

  lemma {:induction false} SubsetCardLe(a: set<Point>, b: set<Point>)
    requires a <= b
    ensures |a| <= |b|
    decreases b
  {
    if a != {} {
      var x :| x in a;
      SubsetCardLe(a - {x}, b - {x});
    }
  }

  /** A rope that starts taut stays taut under unit moves. */
  lemma {:induction false} SimulateTaut(s: RopeState, moves: seq<Point>)
    requires |s.knots| > 0 && Taut(s.knots)
    requires forall i :: 0 <= i < |moves| ==> Chebyshev(moves[i]) <= 1
    ensures Taut(Simulate(s, moves).knots)
  {
    if moves != [] {
      var front := moves[..|moves| - 1];
      SimulateTaut(s, front);
      var f := Simulate(s, front);
      var d := moves[|moves| - 1];
      assert Sub(Add(f.knots[0], d), f.knots[0]) == d;
      FollowTaut(f.knots, Add(f.knots[0], d));
    }
  }

  /** The count of the tail's positions: at least the origin, at most one
      more per step of the commands. */
  lemma TailCountBound(lines: seq<string>, knotCount: nat)
    requires Moves(lines).Some? && knotCount > 0
    ensures 1 <= |Simulate(Start(knotCount), Moves(lines).value).visited| <= 1 + StepsOf(lines)
  {
    SimulateVisited(Start(knotCount), Moves(lines).value);
    MovesSteps(lines);
    assert Origin in Simulate(Start(knotCount), Moves(lines).value).visited;
  }

  lemma SimulateSnoc(s: RopeState, done: seq<Point>, d: Point, next: seq<Point>)
    requires |s.knots| > 0 && next == done + [d]
    ensures Simulate(s, next) == Pull(Simulate(s, done), d)
  {
    assert next[..|next| - 1] == done;
  }

  lemma RepeatSnoc(before: seq<Point>, d: Point, k: nat, done: seq<Point>, next: seq<Point>)
    requires done == before + Repeat(d, k) && next == before + Repeat(d, k + 1)
    ensures next == done + [d]
  {
    assert Repeat(d, k + 1) == Repeat(d, k) + [d];
  }

  /** The rope object holds the state `s`. */
  ghost predicate Holds(rope: Rope, s: RopeState)
    reads rope, rope.knots
  {
    rope.knots[..] == s.knots && rope.tailSet == s.visited
  }

  /** The inner loop of `part_1`/`part_2`: the head moves `steps` times by
      `delta`; a rope without knots panics on the first move. */
  method RunCommand(rope: Rope, delta: Point, steps: nat, ghost start: RopeState, ghost before: seq<Point>)
    returns (ok: bool)
    requires |start.knots| > 0 ==> Holds(rope, Simulate(start, before))
    requires rope.knots.Length == |start.knots|
    modifies rope.knots, rope`tailSet
    ensures ok <==> rope.knots.Length > 0 || steps == 0
    ensures ok && rope.knots.Length > 0 ==> Holds(rope, Simulate(start, before + Repeat(delta, steps)))
    ensures rope.knots.Length == 0 ==> rope.tailSet == old(rope.tailSet)
  {
    if rope.knots.Length == 0 {
      return steps == 0;
    }
    var k := 0;
    ghost var done := before;
    assert before + Repeat(delta, 0) == before;
    while k < steps
      invariant 0 <= k <= steps
      invariant done == before + Repeat(delta, k)
      invariant Holds(rope, Simulate(start, done))
    {
      ghost var next := before + Repeat(delta, k + 1);
      RepeatSnoc(before, delta, k, done, next);
      SimulateSnoc(start, done, delta, next);
      var moved := rope.MoveHead(delta);
      assert moved;
      k := k + 1;
      done := next;
    }
    return true;
  }

  /** `part_1` (two knots) and `part_2` (ten): run every command on a rope
      of `knotCount` knots and count the positions the last knot visited.
      A line that does not parse, or a move of a rope without knots, is a
      panic (None). */
  method CountTailPositions(lines: seq<string>, knotCount: nat) returns (r: Option<nat>)
    ensures r.Some? <==> Moves(lines).Some? && (knotCount > 0 || Moves(lines).value == [])
    ensures r.Some? && knotCount > 0 ==> r.value == |Simulate(Start(knotCount), Moves(lines).value).visited|
    ensures r.Some? && knotCount == 0 ==> r.value == 1
  {
    var rope := new Rope(knotCount);
    ghost var start := Start(knotCount);
    assert rope.knots[..] == start.knots;
    var i := 0;
    while i < |lines|
      invariant 0 <= i <= |lines|
      invariant rope.knots.Length == knotCount && fresh(rope.knots)
      invariant Moves(lines[..i]).Some?
      invariant knotCount > 0 ==> Holds(rope, Simulate(start, Moves(lines[..i]).value))
      invariant knotCount == 0 ==> Moves(lines[..i]).value == [] && rope.tailSet == {Origin}
    {
      ghost var before := Moves(lines[..i]).value;
      ghost var next := lines[..i + 1];
      assert next[..i] == lines[..i];
      var c := ParseCommand(lines[i]);
      if c.None? {
        assert Moves(next).None?;
        if Moves(lines).Some? {
          MovesPrefix(lines, i + 1);
        }
        return None;
      }
      var ok := RunCommand(rope, c.value.delta, c.value.steps, start, before);
      assert Moves(next) == Some(before + Repeat(c.value.delta, c.value.steps));
      if !ok {
        if Moves(lines).Some? {
          MovesPrefix(lines, i + 1);
        }
        return None;
      }
      i := i + 1;
    }
    assert lines[..i] == lines;
    return Some(|rope.tailSet|);
  }
}
