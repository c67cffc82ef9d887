/** Hill climbing (day 12): a grid of heights 'a' to 'z' is searched breadth
    first, one layer of moves at a time, for the fewest moves from a set of
    start cells to the end cell, where a move may climb at most one unit. */
module Day12 {
  import opened Common

  type byte = b: int | 0 <= b < 256

  const S_BYTE: byte := 'S' as int
  const E_BYTE: byte := 'E' as int
  const A_BYTE: byte := 'a' as int
  const Z_BYTE: byte := 'z' as int

  datatype Point = Point(x: nat, y: nat)

  datatype HeightMap = HeightMap(field: seq<seq<byte>>, start: Point, end: Point, width: nat, height: nat)

  /** The start cell counts as height 'a' and the end cell as 'z'. */
  function HeightOf(b: byte): byte
  {
    if b == S_BYTE then A_BYTE else if b == E_BYTE then Z_BYTE else b
  }

  function Heights(line: seq<byte>): (r: seq<byte>)
    ensures |r| == |line| && forall i :: 0 <= i < |line| ==> r[i] == HeightOf(line[i])
  {
    seq(|line|, i requires 0 <= i < |line| => HeightOf(line[i]))
  }

  /** The last column of `line` holding `b`. */
  function LastInRow(line: seq<byte>, b: byte): (r: Option<nat>)
    ensures r.Some? ==> r.value < |line| && line[r.value] == b
    ensures forall x :: (if r.Some? then r.value + 1 else 0) <= x < |line| ==> line[x] != b
  {
    if line == [] then None
    else if line[|line| - 1] == b then Some(|line| - 1)
    else LastInRow(line[..|line| - 1], b)
  }

  /** The last cell holding `b` in reading order (row by row, left to right),
      or `dflt` when there is none. */
  function LastIn(lines: seq<seq<byte>>, b: byte, dflt: Point): Point
  {
    if lines == [] then dflt
    else
      match LastInRow(lines[|lines| - 1], b)
      case Some(x) => Point(x, |lines| - 1)
      case None => LastIn(lines[..|lines| - 1], b, dflt)
  }

  /** `p` comes after `q` in reading order. */
  predicate After(p: Point, q: Point)
  {
    p.y > q.y || (p.y == q.y && p.x > q.x)
  }

  /** The recorded cell holds `b` and no later cell does; when no cell holds
      `b` the default is kept. */
  lemma {:induction false} LastInMeaning(lines: seq<seq<byte>>, b: byte, dflt: Point)
    ensures var p := LastIn(lines, b, dflt);
      if exists y, x :: 0 <= y < |lines| && 0 <= x < |lines[y]| && lines[y][x] == b then
        && p.y < |lines| && p.x < |lines[p.y]| && lines[p.y][p.x] == b
        && forall y, x :: 0 <= y < |lines| && 0 <= x < |lines[y]| && After(Point(x, y), p) ==> lines[y][x] != b
      else p == dflt
  {
    if lines != [] {
      var n := |lines| - 1;
      LastInMeaning(lines[..n], b, dflt);
      var r := LastInRow(lines[n], b);
      if r.None? {
        forall y, x | 0 <= y < n && 0 <= x < |lines[y]|
          ensures lines[..n][y][x] == lines[y][x]
        {
        }
      }
    }
  }

  /** Where a row leaves the cell recorded for `b`: its last `b`, else `dflt`. */
  function Recorded(line: seq<byte>, b: byte, y: nat, dflt: Point): Point
  {
    match LastInRow(line, b)
    case Some(x) => Point(x, y)
    case None => dflt
  }

  lemma RecordedSnoc(line: seq<byte>, c: byte, b: byte, y: nat, dflt: Point)
    ensures Recorded(line + [c], b, y, dflt) == if c == b then Point(|line|, y) else Recorded(line, b, y, dflt)
  {
    assert (line + [c])[..|line|] == line;
  }

  /** One row of `HeightMap::parse`: the heights, and the start and end
      moved to each 'S' and 'E' met. */
  method ParseRow(line: seq<byte>, y: nat, start: Point, end: Point) returns (row: seq<byte>, start': Point, end': Point)
    ensures row == Heights(line)
    ensures start' == Recorded(line, S_BYTE, y, start)
    ensures end' == Recorded(line, E_BYTE, y, end)
  {
    row, start', end' := [], start, end;
    for x := 0 to |line|
      invariant row == Heights(line[..x])
      invariant start' == Recorded(line[..x], S_BYTE, y, start)
      invariant end' == Recorded(line[..x], E_BYTE, y, end)
    {
      assert line[..x + 1] == line[..x] + [line[x]];
      RecordedSnoc(line[..x], line[x], S_BYTE, y, start);
      RecordedSnoc(line[..x], line[x], E_BYTE, y, end);
      if line[x] == S_BYTE {
        start' := Point(x, y);
      } else if line[x] == E_BYTE {
        end' := Point(x, y);
      }
      row := row + [HeightOf(line[x])];
    }
    assert line[..|line|] == line;
  }

  /** `HeightMap::parse`: the width is the first line's length (no lines at
      all is a panic, None), the height the number of lines, the start the
      last 'S' (else (0, 0)) and the end the last 'E' (else (0, 1)). */
  method Parse(lines: seq<seq<byte>>) returns (m: Option<HeightMap>)
    ensures m.Some? <==> |lines| > 0
    ensures m.Some? ==> (
      && |m.value.field| == |lines|
      && (forall y :: 0 <= y < |lines| ==> m.value.field[y] == Heights(lines[y]))
      && m.value.start == LastIn(lines, S_BYTE, Point(0, 0))
      && m.value.end == LastIn(lines, E_BYTE, Point(0, 1))
      && m.value.width == |lines[0]| && m.value.height == |lines|)
  {
    if |lines| == 0 {
      return None;
    }
    var start, end := Point(0, 0), Point(0, 1);
    var field: seq<seq<byte>> := [];
    for y := 0 to |lines|
      invariant |field| == y && forall k :: 0 <= k < y ==> field[k] == Heights(lines[k])
      invariant start == LastIn(lines[..y], S_BYTE, Point(0, 0))
      invariant end == LastIn(lines[..y], E_BYTE, Point(0, 1))
    {
      assert lines[..y + 1][..y] == lines[..y];
      var row;
      row, start, end := ParseRow(lines[y], y, start, end);
      field := field + [row];
    }
    assert lines[..|lines|] == lines;
    return Some(HeightMap(field, start, end, |lines[0]|, |lines|));
  }

  // ---------------------------------------------------------------------------
  // Moves

  /** Every row has the map's width. */
  predicate Rectangular(m: HeightMap)
  {
    |m.field| == m.height && forall y :: 0 <= y < m.height ==> |m.field[y]| == m.width
  }

  predicate InBounds(m: HeightMap, p: Point)
  {
    p.x < m.width && p.y < m.height
  }

  /** `point_height`. */
  function PointHeight(m: HeightMap, p: Point): byte
    requires Rectangular(m) && InBounds(m, p)
  {
    m.field[p.y][p.x]
  }

  /** `neighbours`: left, up, right, down, each only when inside the map. */
  function Neighbours(m: HeightMap, p: Point): seq<Point>
  {
    (if p.x > 0 then [Point(p.x - 1, p.y)] else [])
      + (if p.y > 0 then [Point(p.x, p.y - 1)] else [])
      + (if p.x + 1 < m.width then [Point(p.x + 1, p.y)] else [])
      + (if p.y + 1 < m.height then [Point(p.x, p.y + 1)] else [])
  }

  function Dist(p: Point, q: Point): nat
  {
    Abs(p.x - q.x) + Abs(p.y - q.y)
  }

  /** From a cell of the map the neighbours are exactly the cells of the map
      one step away, at most four and none twice. */
  lemma NeighboursMeaning(m: HeightMap, p: Point, q: Point)
    requires InBounds(m, p)
    ensures q in Neighbours(m, p) <==> InBounds(m, q) && Dist(p, q) == 1
    ensures |Neighbours(m, p)| <= 4
    ensures forall i, j :: 0 <= i < j < |Neighbours(m, p)| ==> Neighbours(m, p)[i] != Neighbours(m, p)[j]
  {
  }

  /** A move goes to a neighbour and climbs at most one unit (it may descend
      any amount). Both cells are on the map whenever the search asks. */
  predicate CanMove(m: HeightMap, p: Point, q: Point)
  {
    && p.y < |m.field| && p.x < |m.field[p.y]|
    && q.y < |m.field| && q.x < |m.field[q.y]|
    && q in Neighbours(m, p)
    && m.field[q.y][q.x] <= m.field[p.y][p.x] as int + 1
  }

  /** The cells one allowed move away from some cell of `from`. */
  function Reach(m: HeightMap, from: set<Point>): set<Point>
  {
    set p, q | p in from && q in Neighbours(m, p) && CanMove(m, p, q) :: q
  }

  lemma ReachMonotone(m: HeightMap, a: set<Point>, b: set<Point>)
    requires a <= b
    ensures Reach(m, a) <= Reach(m, b)
  {
  }

  // ---------------------------------------------------------------------------
  // Breadth-first search

  /** The layer-by-layer search of `shortest_path`: `layer` is the number of
      the moves being tried. The answer is the first layer from which a move
      reaches the end; otherwise the cells reached that were never seen form
      the next frontier. The source repeats forever when the end is out of
      reach; `fuel` bounds the number of layers (None when it runs out). */
  function Bfs(m: HeightMap, frontier: set<Point>, seen: set<Point>, layer: nat, fuel: nat): (r: Option<nat>)
    ensures r.Some? ==> layer <= r.value < layer + fuel
    decreases fuel
  {
    if fuel == 0 then None
    else
      var next := Reach(m, frontier);
      if m.end in next then Some(layer)
      else Bfs(m, next - seen, seen + (next - seen), layer + 1, fuel - 1)
  }

  /** The cells reachable from `starts` in exactly `n` allowed moves. */
  ghost function ReachN(m: HeightMap, starts: set<Point>, n: nat): set<Point>
  {
    if n == 0 then starts else Reach(m, ReachN(m, starts, n - 1))
  }

  /** The cells reachable from `starts` in one to `n` allowed moves. */
  ghost function Moved(m: HeightMap, starts: set<Point>, n: nat): set<Point>
  {
    if n == 0 then {} else Moved(m, starts, n - 1) + ReachN(m, starts, n)
  }

  /** The cells reachable from `starts` in at most `n` allowed moves. */
  ghost function Upto(m: HeightMap, starts: set<Point>, n: nat): set<Point>
  {
    starts + Moved(m, starts, n)
  }

  lemma ReachUnion(m: HeightMap, a: set<Point>, b: set<Point>)
    ensures Reach(m, a + b) == Reach(m, a) + Reach(m, b)
  {
  }

  lemma {:induction false} MovedGrows(m: HeightMap, starts: set<Point>, j: nat, n: nat)
    requires 1 <= j <= n
    ensures ReachN(m, starts, j) <= Moved(m, starts, n)
  {
    if j < n {
      MovedGrows(m, starts, j, n - 1);
    }
  }

  /** A move from a cell reachable in fewer than `n` moves reaches a cell
      reachable in one to `n` moves. */
  lemma {:induction false} ReachUpto(m: HeightMap, starts: set<Point>, n: nat)
    requires n >= 1
    ensures Reach(m, Upto(m, starts, n - 1)) <= Moved(m, starts, n)
  {
    if n == 1 {
      assert Upto(m, starts, 0) == starts;
    } else {
      ReachUpto(m, starts, n - 1);
      assert Upto(m, starts, n - 1) == Upto(m, starts, n - 2) + ReachN(m, starts, n - 1);
      ReachUnion(m, Upto(m, starts, n - 2), ReachN(m, starts, n - 1));
    }
  }

  /** The search state after `layer - 1` layers: everything seen is what is
      reachable in at most `layer - 1` moves, the frontier is what is
      reachable in exactly that many and in no fewer, and no earlier layer
      reached the end. */
  ghost predicate Layered(m: HeightMap, starts: set<Point>, frontier: set<Point>, seen: set<Point>, layer: nat)
  {
    && layer >= 1
    && seen == Upto(m, starts, layer - 1)
    && frontier == (if layer == 1 then starts else Upto(m, starts, layer - 1) - Upto(m, starts, layer - 2))
    && m.end !in Moved(m, starts, layer - 1)
  }

  /** The frontier is reached in exactly `layer - 1` moves, and every cell so
      reached is in the frontier or was seen a layer earlier. */
  lemma FrontierFacts(m: HeightMap, starts: set<Point>, frontier: set<Point>, seen: set<Point>, layer: nat)
    requires Layered(m, starts, frontier, seen, layer)
    ensures frontier <= ReachN(m, starts, layer - 1)
    ensures layer == 1 ==> ReachN(m, starts, layer - 1) == frontier
    ensures layer > 1 ==> ReachN(m, starts, layer - 1) <= frontier + Upto(m, starts, layer - 2)
  {
    var k := layer - 1;
    if k > 0 {
      assert Upto(m, starts, k) == Upto(m, starts, k - 1) + ReachN(m, starts, k);
    }
  }

  /** A move from a cell reached in `layer - 1` moves lands in the next
      frontier or on a cell already reached in one to `layer - 1` moves. */
  lemma NextLayer(m: HeightMap, starts: set<Point>, frontier: set<Point>, seen: set<Point>, layer: nat)
    requires Layered(m, starts, frontier, seen, layer)
    ensures Reach(m, frontier) <= ReachN(m, starts, layer)
    ensures ReachN(m, starts, layer) <= Reach(m, frontier) + Moved(m, starts, layer - 1)
  {
    var k := layer - 1;
    FrontierFacts(m, starts, frontier, seen, layer);
    ReachNStep(m, starts, layer);
    ReachMonotone(m, frontier, ReachN(m, starts, k));
    if k > 0 {
      var u := Upto(m, starts, k - 1);
      ReachMonotone(m, ReachN(m, starts, k), frontier + u);
      ReachUnion(m, frontier, u);
      ReachUpto(m, starts, k);
      SubsetChain(ReachN(m, starts, layer), Reach(m, ReachN(m, starts, k)), Reach(m, frontier + u),
        Reach(m, frontier), Reach(m, u), Moved(m, starts, k));
    }
  }

  lemma ReachNStep(m: HeightMap, starts: set<Point>, n: nat)
    requires n >= 1
    ensures ReachN(m, starts, n) == Reach(m, ReachN(m, starts, n - 1))
  {
  }

  lemma SubsetChain(r: set<Point>, r': set<Point>, c: set<Point>, a: set<Point>, b: set<Point>, b': set<Point>)
    requires r == r' && r' <= c && c == a + b && b <= b'
    ensures r <= a + b'
  {
  }

  /** One layer of the search keeps the state layered. */
  lemma LayerStep(m: HeightMap, starts: set<Point>, frontier: set<Point>, seen: set<Point>, layer: nat)
    requires Layered(m, starts, frontier, seen, layer)
    requires m.end !in Reach(m, frontier)
    ensures Layered(m, starts, Reach(m, frontier) - seen, seen + (Reach(m, frontier) - seen), layer + 1)
  {
    NextLayer(m, starts, frontier, seen, layer);
    LayerSets(Reach(m, frontier), seen, ReachN(m, starts, layer), Moved(m, starts, layer - 1), starts);
  }

  /** The set algebra of one layer: with `next` the cells reached from the
      frontier, `r` those reached in `layer` moves and `moved` those reached
      in one to `layer - 1`. */
  lemma LayerSets(next: set<Point>, seen: set<Point>, r: set<Point>, moved: set<Point>, starts: set<Point>)
    requires next <= r <= next + moved && seen == starts + moved
    ensures seen + (next - seen) == starts + (moved + r)
    ensures next - seen == (starts + (moved + r)) - (starts + moved)
    ensures r - next <= moved
  {
  }

  /** `n` is the fewest moves, at least one, that reach the end. */
  ghost predicate FewestMoves(m: HeightMap, starts: set<Point>, n: nat)
  {
    n >= 1 && m.end in ReachN(m, starts, n) && m.end !in Moved(m, starts, n - 1)
  }

  /** The frontier and the seen cells of the layer trying move `layer`, as
      `Layered` fixes them. */
  ghost function FrontierAt(m: HeightMap, starts: set<Point>, layer: nat): set<Point>
    requires layer >= 1
  {
    if layer == 1 then starts else Upto(m, starts, layer - 1) - Upto(m, starts, layer - 2)
  }

  ghost function SeenAt(m: HeightMap, starts: set<Point>, layer: nat): set<Point>
    requires layer >= 1
  {
    Upto(m, starts, layer - 1)
  }

  lemma LayeredAt(m: HeightMap, starts: set<Point>, layer: nat)
    requires layer >= 1 && m.end !in Moved(m, starts, layer - 1)
    ensures Layered(m, starts, FrontierAt(m, starts, layer), SeenAt(m, starts, layer), layer)
  {
  }

  /** A layer that misses the end hands on to the next layer of the same
      search. */
  lemma LayerStepAt(m: HeightMap, starts: set<Point>, layer: nat, fuel: nat, layer': nat, fuel': nat)
    requires layer >= 1 && m.end !in Moved(m, starts, layer - 1)
    requires fuel > 0 && m.end !in Reach(m, FrontierAt(m, starts, layer))
    requires layer' == layer + 1 && fuel' == fuel - 1
    ensures m.end !in Moved(m, starts, layer' - 1)
    ensures Bfs(m, FrontierAt(m, starts, layer), SeenAt(m, starts, layer), layer, fuel)
      == Bfs(m, FrontierAt(m, starts, layer'), SeenAt(m, starts, layer'), layer', fuel')
  {
    var frontier, seen := FrontierAt(m, starts, layer), SeenAt(m, starts, layer);
    LayeredAt(m, starts, layer);
    LayerStep(m, starts, frontier, seen, layer);
    BfsUnfold(m, frontier, seen, layer, fuel);
  }

  /** The search's answer is the fewest moves, at least one, by which the
      end can be reached from a start. */
  lemma {:induction false} BfsFewestMoves(m: HeightMap, starts: set<Point>, layer: nat, fuel: nat)
    requires layer >= 1 && m.end !in Moved(m, starts, layer - 1)
    requires Bfs(m, FrontierAt(m, starts, layer), SeenAt(m, starts, layer), layer, fuel).Some?
    ensures FewestMoves(m, starts, Bfs(m, FrontierAt(m, starts, layer), SeenAt(m, starts, layer), layer, fuel).value)
    decreases fuel
  {
    var frontier, seen := FrontierAt(m, starts, layer), SeenAt(m, starts, layer);
    LayeredAt(m, starts, layer);
    if m.end in Reach(m, frontier) {
      FoundHere(m, starts, frontier, seen, layer, fuel);
    } else {
      var layer', fuel' := layer + 1, fuel - 1;
      LayerStepAt(m, starts, layer, fuel, layer', fuel');
      BfsFewestMoves(m, starts, layer', fuel');
    }
  }

  /** A layer whose moves reach the end gives the fewest moves. */
  lemma FoundHere(m: HeightMap, starts: set<Point>, frontier: set<Point>, seen: set<Point>, layer: nat, fuel: nat)
    requires Layered(m, starts, frontier, seen, layer)
    requires fuel > 0 && m.end in Reach(m, frontier)
    ensures Bfs(m, frontier, seen, layer, fuel) == Some(layer)
    ensures FewestMoves(m, starts, layer)
  {
    NextLayer(m, starts, frontier, seen, layer);
  }

  /** A layer that misses the end hands on to the next one. */
  lemma BfsUnfold(m: HeightMap, frontier: set<Point>, seen: set<Point>, layer: nat, fuel: nat)
    requires fuel > 0 && m.end !in Reach(m, frontier)
    ensures Bfs(m, frontier, seen, layer, fuel)
      == Bfs(m, Reach(m, frontier) - seen, seen + (Reach(m, frontier) - seen), layer + 1, fuel - 1)
  {
  }

  /** With enough layers the search finds the end whenever it can be
      reached in some number of moves, at least one. */
  lemma {:induction false} BfsComplete(m: HeightMap, starts: set<Point>, layer: nat, fuel: nat, n: nat)
    requires layer >= 1 && m.end !in Moved(m, starts, layer - 1)
    requires layer <= n < layer + fuel && m.end in ReachN(m, starts, n)
    ensures Bfs(m, FrontierAt(m, starts, layer), SeenAt(m, starts, layer), layer, fuel).Some?
    decreases fuel
  {
    var frontier, seen := FrontierAt(m, starts, layer), SeenAt(m, starts, layer);
    LayeredAt(m, starts, layer);
    if m.end !in Reach(m, frontier) {
      NotYet(m, starts, frontier, seen, layer, n);
      var layer', fuel' := layer + 1, fuel - 1;
      LayerStepAt(m, starts, layer, fuel, layer', fuel');
      BfsComplete(m, starts, layer', fuel', n);
    } else {
      FoundHere(m, starts, frontier, seen, layer, fuel);
    }
  }

  /** A layer that misses the end leaves it for a later layer. */
  lemma NotYet(m: HeightMap, starts: set<Point>, frontier: set<Point>, seen: set<Point>, layer: nat, n: nat)
    requires Layered(m, starts, frontier, seen, layer)
    requires layer <= n && m.end in ReachN(m, starts, n) && m.end !in Reach(m, frontier)
    ensures layer < n
  {
    NextLayer(m, starts, frontier, seen, layer);
  }

  /** `shortest_path` from `starts`, for at most `fuel` layers. */
  function ShortestPath(m: HeightMap, starts: set<Point>, fuel: nat): Option<nat>
  {
    Bfs(m, starts, starts, 1, fuel)
  }

  /** The answer is the fewest moves, at least one, from some start to the
      end, and it is found when there is one within the fuel. */
  lemma ShortestPathMeaning(m: HeightMap, starts: set<Point>, fuel: nat)
    ensures ShortestPath(m, starts, fuel).Some? ==> (
      var n := ShortestPath(m, starts, fuel).value;
      && 1 <= n <= fuel && m.end in ReachN(m, starts, n)
      && forall j :: 1 <= j < n ==> m.end !in ReachN(m, starts, j))
    ensures (exists n :: 1 <= n <= fuel && m.end in ReachN(m, starts, n)) ==> ShortestPath(m, starts, fuel).Some?
  {
    assert Upto(m, starts, 0) == starts;
    assert SeenAt(m, starts, 1) == starts;
    if ShortestPath(m, starts, fuel).Some? {
      BfsFewestMoves(m, starts, 1, fuel);
      var n := ShortestPath(m, starts, fuel).value;
      var below := n - 1;
      assert m.end !in Moved(m, starts, below);
      forall j | 1 <= j <= below
        ensures m.end !in ReachN(m, starts, j)
      {
        MovedGrows(m, starts, j, below);
      }
    }
    if exists n :: 1 <= n <= fuel && m.end in ReachN(m, starts, n) {
      var n :| 1 <= n <= fuel && m.end in ReachN(m, starts, n);
      BfsComplete(m, starts, 1, fuel, n);
    }
  }

  // ---------------------------------------------------------------------------
  // The search as the source runs it

  /** The cells one allowed move away from `p`. */
  function ReachOne(m: HeightMap, p: Point): (r: set<Point>)
    ensures forall q :: q in r <==> q in Neighbours(m, p) && CanMove(m, p, q)
  {
    set q | q in Neighbours(m, p) && CanMove(m, p, q)
  }

  lemma ReachInsert(m: HeightMap, a: set<Point>, p: Point)
    ensures Reach(m, a + {p}) == Reach(m, a) + ReachOne(m, p)
  {
  }

  /** On a rectangular map every allowed move stays on the map. */
  lemma ReachInBounds(m: HeightMap, from: set<Point>)
    requires Rectangular(m)
    ensures forall q :: q in Reach(m, from) ==> InBounds(m, q)
  {
  }

  lemma BfsHit(m: HeightMap, frontier: set<Point>, seen: set<Point>, layer: nat, fuel: nat)
    requires fuel > 0 && m.end in Reach(m, frontier)
    ensures Bfs(m, frontier, seen, layer, fuel) == Some(layer)
  {
  }

  /** The inner loop of `shortest_path` for one cell `p` of the frontier:
      each allowed move either hits the end (`found`, the source returns) or
      lands on a cell; a cell without a `steps_to` entry gets one, `steps`,
      and joins the next frontier. Entries already made never change. */
  method ExpandPoint(m: HeightMap, p: Point, stepsTo: map<Point, nat>, searchNext: set<Point>, steps: nat)
    returns (found: bool, stepsTo': map<Point, nat>, searchNext': set<Point>)
    requires Rectangular(m) && InBounds(m, p)
    requires searchNext <= stepsTo.Keys
    ensures found <==> m.end in ReachOne(m, p)
    ensures !found ==> (
      && searchNext' == searchNext + (ReachOne(m, p) - stepsTo.Keys)
      && stepsTo'.Keys == stepsTo.Keys + searchNext'
      && (forall q :: q in stepsTo ==> stepsTo'[q] == stepsTo[q])
      && (forall q :: q in stepsTo'.Keys - stepsTo.Keys ==> stepsTo'[q] == steps))
  {
    var ns := Neighbours(m, p);
    var maxHeight := PointHeight(m, p) as int + 1;
    stepsTo', searchNext' := stepsTo, searchNext;
    for i := 0 to |ns|
      invariant Expanded(m, p, ns[..i], stepsTo, searchNext, stepsTo', searchNext', steps)
    {
      var q := ns[i];
      assert ns[..i + 1] == ns[..i] + [q];
      CanMoveNeighbour(m, p, q);
      if PointHeight(m, q) as int <= maxHeight {
        if q == m.end {
          assert m.end in ReachOne(m, p);
          return true, stepsTo', searchNext';
        }
        if q !in stepsTo' {
          ExpandAdd(m, p, ns[..i], q, stepsTo, searchNext, stepsTo', searchNext', steps);
          stepsTo' := stepsTo'[q := steps];
          searchNext' := searchNext' + {q};
        } else {
          ExpandSkip(m, p, ns[..i], q, stepsTo, searchNext, stepsTo', searchNext', steps);
        }
      } else {
        ExpandSkip(m, p, ns[..i], q, stepsTo, searchNext, stepsTo', searchNext', steps);
      }
    }
    assert ns[..|ns|] == ns;
    assert Allowed(m, p, ns) == ReachOne(m, p);
    found := false;
  }

  /** The inner loop of `shortest_path` after the neighbours `s`: none of
      the allowed moves hit the end, and each cell they reach that had no
      entry now has one and is in the next frontier. */
  ghost predicate Expanded(m: HeightMap, p: Point, s: seq<Point>, stepsTo: map<Point, nat>, searchNext: set<Point>,
    stepsTo': map<Point, nat>, searchNext': set<Point>, steps: nat)
  {
    && m.end !in Allowed(m, p, s)
    && searchNext' == searchNext + (Allowed(m, p, s) - stepsTo.Keys)
    && stepsTo'.Keys == stepsTo.Keys + searchNext'
    && Extends(stepsTo, stepsTo', steps)
  }

  /** A neighbour that cannot be moved to, or that already has an entry,
      changes nothing. */
  lemma ExpandSkip(m: HeightMap, p: Point, s: seq<Point>, q: Point, stepsTo: map<Point, nat>, searchNext: set<Point>,
    stepsTo': map<Point, nat>, searchNext': set<Point>, steps: nat)
    requires Expanded(m, p, s, stepsTo, searchNext, stepsTo', searchNext', steps)
    requires !CanMove(m, p, q) || (q in stepsTo' && q != m.end)
    ensures Expanded(m, p, s + [q], stepsTo, searchNext, stepsTo', searchNext', steps)
  {
    AllowedSnoc(m, p, s, q);
  }

  /** A neighbour that can be moved to, is not the end and has no entry gets
      one and joins the next frontier. */
  lemma ExpandAdd(m: HeightMap, p: Point, s: seq<Point>, q: Point, stepsTo: map<Point, nat>, searchNext: set<Point>,
    stepsTo': map<Point, nat>, searchNext': set<Point>, steps: nat)
    requires Expanded(m, p, s, stepsTo, searchNext, stepsTo', searchNext', steps)
    requires CanMove(m, p, q) && q != m.end && q !in stepsTo'
    ensures Expanded(m, p, s + [q], stepsTo, searchNext, stepsTo'[q := steps], searchNext' + {q}, steps)
  {
    AllowedSnoc(m, p, s, q);
    ExtendsAdd(stepsTo, stepsTo', q, steps);
  }

  /** The cells of `s` to which a move from `p` is allowed. */
  function Allowed(m: HeightMap, p: Point, s: seq<Point>): set<Point>
  {
    set q | q in s && CanMove(m, p, q)
  }

  lemma AllowedSnoc(m: HeightMap, p: Point, s: seq<Point>, q: Point)
    ensures Allowed(m, p, s + [q]) == Allowed(m, p, s) + (if CanMove(m, p, q) then {q} else {})
  {
  }

  /** A neighbour on a rectangular map can be moved to exactly when it is at
      most one unit higher. */
  lemma CanMoveNeighbour(m: HeightMap, p: Point, q: Point)
    requires Rectangular(m) && InBounds(m, p) && q in Neighbours(m, p)
    ensures InBounds(m, q)
    ensures CanMove(m, p, q) <==> PointHeight(m, q) as int <= PointHeight(m, p) as int + 1
  {
  }

  lemma ExtendsAdd(before: map<Point, nat>, after: map<Point, nat>, q: Point, steps: nat)
    requires Extends(before, after, steps) && q !in after
    ensures Extends(before, after[q := steps], steps)
  {
  }

  /** `after` keeps every entry of `before` and gives each added key `steps`. */
  ghost predicate Extends(before: map<Point, nat>, after: map<Point, nat>, steps: nat)
  {
    && before.Keys <= after.Keys
    && (forall q :: q in before ==> after[q] == before[q])
    && (forall q :: q in after.Keys - before.Keys ==> after[q] == steps)
  }

  /** One layer of `shortest_path`: every cell of the frontier in turn, in
      no particular order. Without a hit, the next frontier is the cells
      reached that had no `steps_to` entry, and each of them now has one. */
  method ExpandLayer(m: HeightMap, searchNow: set<Point>, stepsTo: map<Point, nat>, steps: nat)
    returns (found: bool, stepsTo': map<Point, nat>, searchNext: set<Point>)
    requires Rectangular(m) && forall p :: p in searchNow ==> InBounds(m, p)
    ensures found <==> m.end in Reach(m, searchNow)
    ensures !found ==> (
      && searchNext == Reach(m, searchNow) - stepsTo.Keys
      && stepsTo'.Keys == stepsTo.Keys + searchNext
      && (forall q :: q in stepsTo ==> stepsTo'[q] == stepsTo[q]))
  {
    var remaining := searchNow;
    stepsTo', searchNext := stepsTo, {};
    while remaining != {}
      invariant remaining <= searchNow
      invariant m.end !in Reach(m, searchNow - remaining)
      invariant searchNext == Reach(m, searchNow - remaining) - stepsTo.Keys
      invariant stepsTo'.Keys == stepsTo.Keys + searchNext
      invariant forall q :: q in stepsTo ==> stepsTo'[q] == stepsTo[q]
      decreases remaining
    {
      var p :| p in remaining;
      var hit;
      var before := stepsTo';
      hit, stepsTo', searchNext := ExpandPoint(m, p, stepsTo', searchNext, steps);
      ReachInsert(m, searchNow - remaining, p);
      assert (searchNow - remaining) + {p} == searchNow - (remaining - {p});
      if hit {
        ReachMonotone(m, (searchNow - remaining) + {p}, searchNow);
        return true, stepsTo', searchNext;
      }
      remaining := remaining - {p};
    }
    assert searchNow - remaining == searchNow;
    found := false;
  }

  /** `shortest_path`, run for at most `fuel` layers: the steps are counted
      from one, every start is seen with 0 steps, and the search stops at
      the first layer whose moves hit the end. */
  method ShortestPathSearch(m: HeightMap, starts: seq<Point>, fuel: nat) returns (r: Option<nat>)
    requires Rectangular(m) && forall i :: 0 <= i < |starts| ==> InBounds(m, starts[i])
    ensures r == ShortestPath(m, (set p | p in starts), fuel)
  {
    ghost var startSet := set p | p in starts;
    var stepsTo: map<Point, nat> := map[];
    var searchNow: set<Point> := {};
    for i := 0 to |starts|
      invariant stepsTo.Keys == searchNow == set p | p in starts[..i]
    {
      stepsTo := stepsTo[starts[i] := 0];
      searchNow := searchNow + {starts[i]};
      assert starts[..i + 1] == starts[..i] + [starts[i]];
    }
    assert starts[..|starts|] == starts;
    var steps := 0;
    while steps < fuel
      invariant steps <= fuel
      invariant forall p :: p in stepsTo ==> InBounds(m, p)
      invariant searchNow <= stepsTo.Keys
      invariant Bfs(m, searchNow, stepsTo.Keys, steps + 1, fuel - steps) == ShortestPath(m, startSet, fuel)
    {
      steps := steps + 1;
      var found, searchNext;
      ghost var seen := stepsTo.Keys;
      found, stepsTo, searchNext := ExpandLayer(m, searchNow, stepsTo, steps);
      if found {
        BfsHit(m, searchNow, seen, steps, fuel - steps + 1);
        return Some(steps);
      }
      BfsUnfold(m, searchNow, seen, steps, fuel - steps + 1);
      ReachInBounds(m, searchNow);
      searchNow := searchNext;
    }
    r := None;
  }

  /** `lowest_points`: the cells of height 'a' (the start among them),
      column by column and top to bottom within a column. */
  method LowestPoints(m: HeightMap) returns (v: seq<Point>)
    requires Rectangular(m)
    ensures forall p :: p in v <==> InBounds(m, p) && PointHeight(m, p) == A_BYTE
    ensures forall i, j :: 0 <= i < j < |v| ==> ColumnMajor(v[i], v[j])
  {
    v := [];
    for x := 0 to m.width
      invariant forall p :: p in v <==> InBounds(m, p) && p.x < x && PointHeight(m, p) == A_BYTE
      invariant forall i, j :: 0 <= i < j < |v| ==> ColumnMajor(v[i], v[j])
      invariant forall i :: 0 <= i < |v| ==> v[i].x < x
    {
      for y := 0 to m.height
        invariant forall p :: p in v <==> InBounds(m, p) && (p.x < x || (p.x == x && p.y < y)) && PointHeight(m, p) == A_BYTE
        invariant forall i, j :: 0 <= i < j < |v| ==> ColumnMajor(v[i], v[j])
        invariant forall i :: 0 <= i < |v| ==> ColumnMajor(v[i], Point(x, y))
      {
        var p := Point(x, y);
        if PointHeight(m, p) == A_BYTE {
          v := v + [p];
        }
      }
    }
  }

  /** `p` comes before `q` column by column. */
  predicate ColumnMajor(p: Point, q: Point)
  {
    p.x < q.x || (p.x == q.x && p.y < q.y)
  }

  /** `part_1`: the fewest moves from the start. */
  method Part1(m: HeightMap, fuel: nat) returns (r: Option<nat>)
    requires Rectangular(m) && InBounds(m, m.start)
    ensures r == ShortestPath(m, {m.start}, fuel)
  {
    r := ShortestPathSearch(m, [m.start], fuel);
    assert (set p | p in [m.start]) == {m.start};
  }

  /** The cells of height 'a'. */
  function LowSet(m: HeightMap): (r: set<Point>)
    requires Rectangular(m)
    ensures forall p :: p in r <==> InBounds(m, p) && PointHeight(m, p) == A_BYTE
  {
    set x, y | 0 <= x < m.width && 0 <= y < m.height && m.field[y][x] == A_BYTE :: Point(x, y)
  }

  /** `part_2`: the fewest moves from any cell of height 'a'. */
  method Part2(m: HeightMap, fuel: nat) returns (r: Option<nat>)
    requires Rectangular(m)
    ensures r == ShortestPath(m, LowSet(m), fuel)
  {
    var lows := LowestPoints(m);
    r := ShortestPathSearch(m, lows, fuel);
    assert (set p | p in lows) == LowSet(m);
  }
}
