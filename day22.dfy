/** Monkey map (day 22): a walker follows a path of steps and turns over a
    map of open tiles and walls; leaving the map wraps around to the far end
    of the same row or column. */
module Day22 {
  import opened Common

  datatype Tile = Wrap | Empty | Block

  /** `Tile::parse`; any other character is a panic (None). */
  function TileOf(c: char): Option<Tile>
  {
    if c == ' ' then Some(Wrap) else if c == '.' then Some(Empty) else if c == '#' then Some(Block) else None
  }

  datatype Step = Forward | TurnLeft | TurnRight

  datatype Direction = Up | Right | Down | Left

  function RotateRight(d: Direction): Direction
  {
    match d
    case Up => Right
    case Right => Down
    case Down => Left
    case Left => Up
  }

  function RotateLeft(d: Direction): Direction
  {
    match d
    case Up => Left
    case Right => Up
    case Down => Right
    case Left => Down
  }

  /** `to_facing`: Right, Down, Left, Up are 0, 1, 2, 3. */
  function ToFacing(d: Direction): (f: nat)
    ensures f < 4
  {
    match d
    case Right => 0
    case Down => 1
    case Left => 2
    case Up => 3
  }

  /** The two rotations undo each other, four of either is no turn, and a
      right turn adds one to the facing modulo 4. */
  lemma RotationFacts(d: Direction)
    ensures RotateLeft(RotateRight(d)) == d && RotateRight(RotateLeft(d)) == d
    ensures RotateRight(RotateRight(RotateRight(RotateRight(d)))) == d
    ensures RotateLeft(RotateLeft(RotateLeft(RotateLeft(d)))) == d
    ensures ToFacing(RotateRight(d)) == (ToFacing(d) + 1) % 4
    ensures ToFacing(RotateLeft(d)) == (ToFacing(d) + 3) % 4
  {
  }

  /** The facings of different directions differ. */
  lemma FacingInjective(d: Direction, e: Direction)
    ensures ToFacing(d) == ToFacing(e) <==> d == e
  {
  }

  // ---------------------------------------------------------------------------
  // The map

  type Tiles = seq<seq<Tile>>

  /** `contains`: the row exists, the column is within it, and the tile is
      not a gap. */
  predicate Contains(tiles: Tiles, row: nat, col: nat)
  {
    row < |tiles| && col < |tiles[row]| && tiles[row][col] != Wrap
  }

  /** The first column from `col` on in which row `row` is on the map. */
  function FirstColFrom(tiles: Tiles, row: nat, col: nat): (r: Option<nat>)
    requires row < |tiles|
    ensures r.Some? ==> col <= r.value && Contains(tiles, row, r.value)
    ensures forall c :: col <= c < (if r.Some? then r.value else |tiles[row]|) ==> !Contains(tiles, row, c)
    decreases |tiles[row]| - col
  {
    if col >= |tiles[row]| then None
    else if Contains(tiles, row, col) then Some(col)
    else FirstColFrom(tiles, row, col + 1)
  }

  /** The last column below `end` in which row `row` is on the map. */
  function LastColBelow(tiles: Tiles, row: nat, end: nat): (r: Option<nat>)
    requires row < |tiles| && end <= |tiles[row]|
    ensures r.Some? ==> r.value < end && Contains(tiles, row, r.value)
    ensures forall c :: (if r.Some? then r.value + 1 else 0) <= c < end ==> !Contains(tiles, row, c)
  {
    if end == 0 then None
    else if Contains(tiles, row, end - 1) then Some(end - 1)
    else LastColBelow(tiles, row, end - 1)
  }

  /** The first row from `row` on in which column `col` is on the map. */
  function FirstRowFrom(tiles: Tiles, col: nat, row: nat): (r: Option<nat>)
    ensures r.Some? ==> row <= r.value && Contains(tiles, r.value, col)
    ensures forall k :: row <= k < (if r.Some? then r.value else |tiles|) ==> !Contains(tiles, k, col)
    decreases |tiles| - row
  {
    if row >= |tiles| then None
    else if Contains(tiles, row, col) then Some(row)
    else FirstRowFrom(tiles, col, row + 1)
  }

  /** The last row below `end` in which column `col` is on the map. */
  function LastRowBelow(tiles: Tiles, col: nat, end: nat): (r: Option<nat>)
    requires end <= |tiles|
    ensures r.Some? ==> r.value < end && Contains(tiles, r.value, col)
    ensures forall k :: (if r.Some? then r.value + 1 else 0) <= k < end ==> !Contains(tiles, k, col)
  {
    if end == 0 then None
    else if Contains(tiles, end - 1, col) then Some(end - 1)
    else LastRowBelow(tiles, col, end - 1)
  }

  /** `first_of_row`, `last_of_row`, `first_of_col`, `last_of_col`; a row
      index out of range or a row or column without any map cell is a panic
      (None). */
  function FirstOfRow(tiles: Tiles, row: nat): Option<nat>
  {
    if row < |tiles| then FirstColFrom(tiles, row, 0) else None
  }

  function LastOfRow(tiles: Tiles, row: nat): Option<nat>
  {
    if row < |tiles| then LastColBelow(tiles, row, |tiles[row]|) else None
  }

  function FirstOfCol(tiles: Tiles, col: nat): Option<nat>
  {
    FirstRowFrom(tiles, col, 0)
  }

  function LastOfCol(tiles: Tiles, col: nat): Option<nat>
  {
    LastRowBelow(tiles, col, |tiles|)
  }

  /** `up_of`, `down_of`, `left_of`, `right_of`: the neighbouring cell if it
      is on the map, otherwise the far end of the same column or row. */
  function Neighbour(tiles: Tiles, row: nat, col: nat, d: Direction): Option<(nat, nat)>
  {
    match d
    case Up =>
      if row > 0 && Contains(tiles, row - 1, col) then Some((row - 1, col))
      else (match LastOfCol(tiles, col) case Some(r) => Some((r, col)) case None => None)
    case Down =>
      if Contains(tiles, row + 1, col) then Some((row + 1, col))
      else (match FirstOfCol(tiles, col) case Some(r) => Some((r, col)) case None => None)
    case Left =>
      if col > 0 && Contains(tiles, row, col - 1) then Some((row, col - 1))
      else (match LastOfRow(tiles, row) case Some(c) => Some((row, c)) case None => None)
    case Right =>
      if Contains(tiles, row, col + 1) then Some((row, col + 1))
      else (match FirstOfRow(tiles, row) case Some(c) => Some((row, c)) case None => None)
  }

  /** From a map cell the neighbour always exists and is a map cell: the
      adjacent one when that is on the map, otherwise the far end of the
      same column (up and down) or row (left and right), beyond which
      nothing in that line is on the map. */
  lemma NeighbourFacts(tiles: Tiles, row: nat, col: nat, d: Direction)
    requires Contains(tiles, row, col)
    ensures Neighbour(tiles, row, col, d).Some?
    ensures var (r, c) := Neighbour(tiles, row, col, d).value;
      && Contains(tiles, r, c)
      && (d.Up? || d.Down? ==> c == col)
      && (d.Left? || d.Right? ==> r == row)
      && (d.Up? && row > 0 && Contains(tiles, row - 1, col) ==> r == row - 1)
      && (d.Up? && !(row > 0 && Contains(tiles, row - 1, col)) ==> forall k :: r < k < |tiles| ==> !Contains(tiles, k, col))
      && (d.Down? && Contains(tiles, row + 1, col) ==> r == row + 1)
      && (d.Down? && !Contains(tiles, row + 1, col) ==> forall k :: 0 <= k < r ==> !Contains(tiles, k, col))
      && (d.Left? && col > 0 && Contains(tiles, row, col - 1) ==> c == col - 1)
      && (d.Left? && !(col > 0 && Contains(tiles, row, col - 1)) ==> forall k :: c < k < |tiles[row]| ==> !Contains(tiles, row, k))
      && (d.Right? && Contains(tiles, row, col + 1) ==> c == col + 1)
      && (d.Right? && !Contains(tiles, row, col + 1) ==> forall k :: 0 <= k < c ==> !Contains(tiles, row, k))
  {
  }

  // ---------------------------------------------------------------------------
  // Walking

  datatype Position = Position(row: nat, col: nat, direction: Direction)

  /** `go_step`: a turn changes only the direction; a forward step moves to
      the neighbour when that tile is open and stays put before a wall.
      Landing on a gap, or a missing neighbour, is a panic (None). */
  function Go(tiles: Tiles, pos: Position, step: Step): Option<Position>
  {
    match step
    case TurnLeft => Some(pos.(direction := RotateLeft(pos.direction)))
    case TurnRight => Some(pos.(direction := RotateRight(pos.direction)))
    case Forward =>
      match Neighbour(tiles, pos.row, pos.col, pos.direction)
      case None => None
      case Some((r, c)) =>
        if r < |tiles| && c < |tiles[r]| then
          match tiles[r][c]
          case Empty => Some(pos.(row := r, col := c))
          case Block => Some(pos)
          case Wrap => None
        else None
  }

  /** From a map cell a step never panics and ends on a map cell; a turn
      keeps the cell, and a forward step keeps the direction and either moves
      onto an open tile or stays. */
  lemma GoFacts(tiles: Tiles, pos: Position, step: Step)
    requires Contains(tiles, pos.row, pos.col)
    ensures Go(tiles, pos, step).Some?
    ensures var p := Go(tiles, pos, step).value;
      && Contains(tiles, p.row, p.col)
      && (step != Forward ==> p.row == pos.row && p.col == pos.col)
      && (step == Forward ==> p.direction == pos.direction)
      && (step == Forward && (p.row, p.col) != (pos.row, pos.col) ==> tiles[p.row][p.col] == Empty)
  {
    NeighbourFacts(tiles, pos.row, pos.col, pos.direction);
  }

  /** The position after a whole path. */
  function Walk(tiles: Tiles, pos: Position, path: seq<Step>): Option<Position>
  {
    if path == [] then Some(pos)
    else
      match Walk(tiles, pos, path[..|path| - 1])
      case None => None
      case Some(p) => Go(tiles, p, path[|path| - 1])
  }

  /** A walk that starts on the map never panics and stays on the map. */
  lemma {:induction false} WalkStaysOnMap(tiles: Tiles, pos: Position, path: seq<Step>)
    requires Contains(tiles, pos.row, pos.col)
    ensures Walk(tiles, pos, path).Some?
    ensures Contains(tiles, Walk(tiles, pos, path).value.row, Walk(tiles, pos, path).value.col)
  {
    if path != [] {
      WalkStaysOnMap(tiles, pos, path[..|path| - 1]);
      GoFacts(tiles, Walk(tiles, pos, path[..|path| - 1]).value, path[|path| - 1]);
    }
  }

  /** The answer: 1000 * row + 4 * column + facing, with 1-based row and
      column. */
  function Password(pos: Position): nat
  {
    1000 * (pos.row + 1) + 4 * (pos.col + 1) + ToFacing(pos.direction)
  }

  /** While the column is below 249 the password determines the position. */
  lemma PasswordDecodes(pos: Position)
    requires pos.col + 1 < 250
    ensures Password(pos) / 1000 == pos.row + 1
    ensures (Password(pos) % 1000) / 4 == pos.col + 1
    ensures Password(pos) % 4 == ToFacing(pos.direction)
  {
    var low := 4 * (pos.col + 1) + ToFacing(pos.direction);
    ModUnique(Password(pos), 1000, pos.row + 1, low);
    ModUnique(low, 4, pos.col + 1, ToFacing(pos.direction));
    ModUnique(Password(pos), 4, 250 * (pos.row + 1) + pos.col + 1, ToFacing(pos.direction));
  }

  // ---------------------------------------------------------------------------
  // Parsing

  function ParseRow(line: string): (r: Option<seq<Tile>>)
    ensures r.Some? ==> |r.value| == |line| && forall i :: 0 <= i < |line| ==> TileOf(line[i]) == Some(r.value[i])
  {
    if line == [] then Some([])
    else
      match (ParseRow(line[..|line| - 1]), TileOf(line[|line| - 1]))
      case (Some(front), Some(t)) => Some(front + [t])
      case _ => None
  }

  /** `Map::parse`. */
  function ParseMap(lines: seq<string>): (r: Option<Tiles>)
    ensures r.Some? ==> |r.value| == |lines| && forall i :: 0 <= i < |lines| ==> ParseRow(lines[i]) == Some(r.value[i])
  {
    if lines == [] then Some([])
    else
      match (ParseMap(lines[..|lines| - 1]), ParseRow(lines[|lines| - 1]))
      case (Some(front), Some(row)) => Some(front + [row])
      case _ => None
  }

  const I32_MAX := 0x7FFF_FFFF
  const I32_MIN := -0x8000_0000

  /** `n` forward steps. */
  function Forwards(n: nat): (r: seq<Step>)
    ensures |r| == n && forall i :: 0 <= i < n ==> r[i] == Forward
  {
    if n == 0 then [] else Forwards(n - 1) + [Forward]
  }

  /** The steps of a pending number: `parse::<i32>()`, then that many forward
      steps (none for a negative number); a bad number is a panic (None). */
  function NumberSteps(digits: string): Option<seq<Step>>
  {
    match ParseInt(digits)
    case None => None
    case Some(n) => if I32_MIN <= n <= I32_MAX then Some(Forwards(if n > 0 then n else 0)) else None
  }

  /** The path described by the rest of the line when `pending` holds the
      characters read since the last turn letter. A turn letter closes a
      non-empty number and is recorded after its steps; a turn letter with
      nothing pending is dropped. */
  function PathFrom(s: string, pending: string): Option<seq<Step>>
  {
    if s == [] then (if pending == [] then Some([]) else NumberSteps(pending))
    else if s[0] == 'R' || s[0] == 'L' then
      if pending == [] then PathFrom(s[1..], [])
      else
        match (NumberSteps(pending), PathFrom(s[1..], []))
        case (Some(fw), Some(rest)) => Some(fw + [if s[0] == 'R' then TurnRight else TurnLeft] + rest)
        case _ => None
    else PathFrom(s[1..], pending + [s[0]])
  }

  function ParsePath(line: string): Option<seq<Step>>
  {
    PathFrom(line, [])
  }

  /** A move of the written path: a number of steps and the turn after it. */
  datatype Move = Move(steps: nat, turn: Step)

  function ShowMoves(moves: seq<Move>, last: nat): string
  {
    if moves == [] then ShowNat(last)
    else ShowNat(moves[0].steps) + [if moves[0].turn == TurnRight then 'R' else 'L'] + ShowMoves(moves[1..], last)
  }

  function Expand(moves: seq<Move>, last: nat): seq<Step>
  {
    if moves == [] then Forwards(last)
    else Forwards(moves[0].steps) + [moves[0].turn] + Expand(moves[1..], last)
  }

  predicate IsTurn(s: Step) { s == TurnLeft || s == TurnRight }

  /** Reading a written path gives each number as that many forward steps,
      each followed by its turn. */
  lemma {:induction false} ParseShowMoves(moves: seq<Move>, last: nat)
    requires forall i :: 0 <= i < |moves| ==> IsTurn(moves[i].turn) && moves[i].steps <= I32_MAX
    requires last <= I32_MAX
    ensures ParsePath(ShowMoves(moves, last)) == Some(Expand(moves, last))
  {
    if moves == [] {
      PendingDigits(ShowNat(last), [], []);
      assert ShowNat(last) + [] == ShowNat(last);
      assert [] + ShowNat(last) == ShowNat(last);
      NumberStepsShow(last);
    } else {
      var m := moves[0];
      var digits := ShowNat(m.steps);
      var letter: char := if m.turn == TurnRight then 'R' else 'L';
      var rest := ShowMoves(moves[1..], last);
      assert ShowMoves(moves, last) == digits + ([letter] + rest);
      PendingDigits(digits, [], [letter] + rest);
      assert [] + digits == digits;
      ParseShowMoves(moves[1..], last);
      NumberStepsShow(m.steps);
      TurnAfterNumber(digits, letter, rest);
    }
  }

  /** A turn letter closes a pending number. */
  lemma TurnAfterNumber(digits: string, letter: char, rest: string)
    requires digits != [] && (letter == 'R' || letter == 'L')
    requires NumberSteps(digits).Some? && PathFrom(rest, []).Some?
    ensures PathFrom([letter] + rest, digits)
      == Some(NumberSteps(digits).value + [if letter == 'R' then TurnRight else TurnLeft] + PathFrom(rest, []).value)
  {
    assert ([letter] + rest)[1..] == rest;
  }

  /** A printed count within `i32` reads back as that many forward steps. */
  lemma NumberStepsShow(n: nat)
    requires n <= I32_MAX
    ensures NumberSteps(ShowNat(n)) == Some(Forwards(n))
  {
    ParseShowInt(n);
  }

  lemma {:induction false} PendingDigits(digits: string, pending: string, rest: string)
    requires AllDigits(digits)
    ensures PathFrom(digits + rest, pending) == PathFrom(rest, pending + digits)
    decreases |digits|
  {
    if digits == [] {
      assert digits + rest == rest && pending + digits == pending;
    } else {
      assert (digits + rest)[1..] == digits[1..] + rest;
      assert pending + [digits[0]] + digits[1..] == pending + digits;
      PendingDigits(digits[1..], pending + [digits[0]], rest);
    }
  }

  /** `n` forward steps appended one at a time. */
  method PushForwards(path: seq<Step>, n: nat) returns (path': seq<Step>)
    ensures path' == path + Forwards(n)
  {
    path' := path;
    for i := 0 to n
      invariant path' == path + Forwards(i)
    {
      path' := path' + [Forward];
    }
  }

  /** The path loop of `Solver::parse`. */
  method ReadPath(line: string) returns (path: Option<seq<Step>>)
    ensures path == ParsePath(line)
  {
    var steps: seq<Step> := [];
    var numberStr: string := "";
    for i := 0 to |line|
      invariant PathFrom(line, []).Some? ==> PathFrom(line[i..], numberStr).Some? && PathFrom(line, []).value == steps + PathFrom(line[i..], numberStr).value
      invariant PathFrom(line, []).None? ==> PathFrom(line[i..], numberStr).None?
    {
      var c := line[i];
      assert line[i..][1..] == line[i + 1..];
      if c == 'R' || c == 'L' {
        if numberStr != "" {
          var n := ParseInt(numberStr);
          if n.None? || !(I32_MIN <= n.value <= I32_MAX) {
            return None;
          }
          steps := PushForwards(steps, if n.value > 0 then n.value else 0);
          numberStr := "";
          steps := steps + [if c == 'R' then TurnRight else TurnLeft];
        }
      } else {
        numberStr := numberStr + [c];
      }
    }
    assert line[|line|..] == [];
    if numberStr != "" {
      var n := ParseInt(numberStr);
      if n.None? || !(I32_MIN <= n.value <= I32_MAX) {
        return None;
      }
      steps := PushForwards(steps, if n.value > 0 then n.value else 0);
    } else {
      assert steps + [] == steps;
    }
    return Some(steps);
  }

  class Solver {
    var tiles: Tiles
    var position: Position
    var path: seq<Step>

    constructor(tiles: Tiles, position: Position, path: seq<Step>)
      ensures this.tiles == tiles && this.position == position && this.path == path
    {
      this.tiles := tiles;
      this.position := position;
      this.path := path;
    }

    /** `go_step`. */
    method GoStep(step: Step) returns (ok: bool)
      modifies this`position
      ensures ok <==> Go(tiles, old(position), step).Some?
      ensures ok ==> position == Go(tiles, old(position), step).value
    {
      match step {
        case TurnLeft =>
          position := position.(direction := RotateLeft(position.direction));
        case TurnRight =>
          position := position.(direction := RotateRight(position.direction));
        case Forward =>
          var next := Neighbour(tiles, position.row, position.col, position.direction);
          if next.None? {
            return false;
          }
          var (row, col) := next.value;
          if !(row < |tiles| && col < |tiles[row]|) {
            return false;
          }
          match tiles[row][col] {
            case Empty =>
              position := position.(row := row, col := col);
            case Block =>
            case Wrap =>
              return false;
          }
      }
      return true;
    }

    /** `run`: every step of the path in order. */
    method Run() returns (ok: bool)
      modifies this`position
      ensures ok <==> Walk(tiles, old(position), path).Some?
      ensures ok ==> position == Walk(tiles, old(position), path).value
    {
      ghost var start := position;
      for i := 0 to |path|
        invariant Walk(tiles, start, path[..i]) == Some(position)
      {
        assert path[..i + 1][..i] == path[..i];
        ok := GoStep(path[i]);
        if !ok {
          WalkNoneGrows(tiles, start, path, i + 1);
          return;
        }
      }
      assert path[..|path|] == path;
      return true;
    }
  }

  lemma {:induction false} WalkNoneGrows(tiles: Tiles, pos: Position, path: seq<Step>, i: nat)
    requires i <= |path| && Walk(tiles, pos, path[..i]).None?
    ensures Walk(tiles, pos, path).None?
    decreases |path| - i
  {
    if i < |path| {
      assert path[..i + 1][..i] == path[..i];
      WalkNoneGrows(tiles, pos, path, i + 1);
    } else {
      assert path[..i] == path;
    }
  }

  /** `Solver::parse` on the input's blocks: the map is the first block, the
      path the first line of the second, and the walk starts facing right on
      the first map cell of the top row. */
  method ParseSolver(blocks: seq<seq<string>>) returns (s: Option<Solver>)
    ensures s.Some? <==> (
      && |blocks| >= 2 && |blocks[1]| >= 1
      && ParseMap(blocks[0]).Some? && FirstOfRow(ParseMap(blocks[0]).value, 0).Some?
      && ParsePath(blocks[1][0]).Some?)
    ensures s.Some? ==> (
      && fresh(s.value)
      && s.value.tiles == ParseMap(blocks[0]).value
      && s.value.position == Position(0, FirstOfRow(ParseMap(blocks[0]).value, 0).value, Right)
      && s.value.path == ParsePath(blocks[1][0]).value)
  {
    if |blocks| < 2 || |blocks[1]| < 1 {
      return None;
    }
    var tiles := ParseMap(blocks[0]);
    if tiles.None? {
      return None;
    }
    var first := FirstOfRow(tiles.value, 0);
    if first.None? {
      return None;
    }
    var path := ReadPath(blocks[1][0]);
    if path.None? {
      return None;
    }
    var solver := new Solver(tiles.value, Position(0, first.value, Right), path.value);
    return Some(solver);
  }

  /** The walk's start is a map cell, so the whole walk succeeds. */
  lemma StartOnMap(tiles: Tiles)
    requires FirstOfRow(tiles, 0).Some?
    ensures Contains(tiles, 0, FirstOfRow(tiles, 0).value)
  {
  }
}
