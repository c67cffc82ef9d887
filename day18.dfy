/** Boiling boulders (day 18): a droplet of unit cubes. Part 1 counts the
    cube faces not covered by another cube; part 2 counts only the faces
    reached by steam flowing in from outside the droplet's bounding box. */
module Day18 {
  import opened Common

  /** A cube by its integer coordinates. */
  datatype Point3D = Point3D(x: int, y: int, z: int)

  /** `Point3D::neighbours`: the six cubes sharing a face, in the order
      -x, +x, -y, +y, -z, +z. */
  function Neighbours(p: Point3D): (r: seq<Point3D>)
    ensures |r| == 6
  {
    [ Point3D(p.x - 1, p.y, p.z), Point3D(p.x + 1, p.y, p.z),
      Point3D(p.x, p.y - 1, p.z), Point3D(p.x, p.y + 1, p.z),
      Point3D(p.x, p.y, p.z - 1), Point3D(p.x, p.y, p.z + 1) ]
  }

  function Dist(p: Point3D, q: Point3D): nat
  {
    Abs(p.x - q.x) + Abs(p.y - q.y) + Abs(p.z - q.z)
  }

  /** The neighbours are exactly the cubes one unit step away (one
      coordinate differs by one), six of them and none twice; being a
      neighbour is symmetric. */
  lemma NeighboursMeaning(p: Point3D, q: Point3D)
    ensures q in Neighbours(p) <==> Dist(p, q) == 1
    ensures q in Neighbours(p) <==> p in Neighbours(q)
    ensures forall i, j :: 0 <= i < j < 6 ==> Neighbours(p)[i] != Neighbours(p)[j]
  {
  }

  // ---------------------------------------------------------------------------
  // The map

  /** `LavaMap`: the cubes and the smallest box holding them. */
  datatype LavaMap = LavaMap(blocks: set<Point3D>, minX: int, maxX: int, minY: int, maxY: int, minZ: int, maxZ: int)

  /** `on_map`: inside the box, bounds included. */
  predicate OnMap(m: LavaMap, p: Point3D)
  {
    && p.x >= m.minX && p.y >= m.minY && p.z >= m.minZ
    && p.x <= m.maxX && p.y <= m.maxY && p.z <= m.maxZ
  }

  /** Every cube lies in the box and the box is not empty, as
      `LavaMap::parse` builds it. */
  predicate WellFormed(m: LavaMap)
  {
    && m.minX <= m.maxX && m.minY <= m.maxY && m.minZ <= m.maxZ
    && forall b :: b in m.blocks ==> OnMap(m, b)
  }

  /** The least and the greatest value of a non-empty sequence. */
  function Extent(s: seq<int>): (r: (int, int))
    requires s != []
    ensures r.0 in s && r.1 in s
    ensures forall i :: 0 <= i < |s| ==> r.0 <= s[i] <= r.1
  {
    if |s| == 1 then (s[0], s[0])
    else
      var e := Extent(s[1..]);
      (Min(s[0], e.0), Max(s[0], e.1))
  }

  /** `LavaMap::parse` from the cubes read: the minima and maxima of each
      coordinate (an empty input makes `min().unwrap()` panic, None). */
  function MakeMap(points: seq<Point3D>): (r: Option<LavaMap>)
    ensures r.Some? <==> points != []
  {
    if points == [] then None
    else
      var ex := Extent(seq(|points|, i requires 0 <= i < |points| => points[i].x));
      var ey := Extent(seq(|points|, i requires 0 <= i < |points| => points[i].y));
      var ez := Extent(seq(|points|, i requires 0 <= i < |points| => points[i].z));
      Some(LavaMap((set p | p in points), ex.0, ex.1, ey.0, ey.1, ez.0, ez.1))
  }

  /** The map holds the cubes read, all inside its box, and each side of the
      box touches a cube. */
  lemma MakeMapMeaning(points: seq<Point3D>)
    requires points != []
    ensures var m := MakeMap(points).value;
      && m.blocks == (set p | p in points)
      && WellFormed(m)
      && (exists b :: b in m.blocks && b.x == m.minX)
      && (exists b :: b in m.blocks && b.x == m.maxX)
      && (exists b :: b in m.blocks && b.y == m.minY)
      && (exists b :: b in m.blocks && b.y == m.maxY)
      && (exists b :: b in m.blocks && b.z == m.minZ)
      && (exists b :: b in m.blocks && b.z == m.maxZ)
  {
    var xs := seq(|points|, i requires 0 <= i < |points| => points[i].x);
    var ys := seq(|points|, i requires 0 <= i < |points| => points[i].y);
    var zs := seq(|points|, i requires 0 <= i < |points| => points[i].z);
    var m := MakeMap(points).value;
    assert m.minX == Extent(xs).0 && m.maxX == Extent(xs).1;
    assert m.minY == Extent(ys).0 && m.maxY == Extent(ys).1;
    assert m.minZ == Extent(zs).0 && m.maxZ == Extent(zs).1;
    forall b | b in m.blocks
      ensures OnMap(m, b)
    {
      var i :| 0 <= i < |points| && points[i] == b;
      assert xs[i] == b.x && ys[i] == b.y && zs[i] == b.z;
    }
    Attained(points, xs, m.minX, 0);
    Attained(points, xs, m.maxX, 0);
    Attained(points, ys, m.minY, 1);
    Attained(points, ys, m.maxY, 1);
    Attained(points, zs, m.minZ, 2);
    Attained(points, zs, m.maxZ, 2);
  }

  function Coord(p: Point3D, axis: nat): int
  {
    if axis == 0 then p.x else if axis == 1 then p.y else p.z
  }

  lemma Attained(points: seq<Point3D>, vs: seq<int>, v: int, axis: nat)
    requires |vs| == |points| && forall i :: 0 <= i < |vs| ==> vs[i] == Coord(points[i], axis)
    requires v in vs
    ensures exists b :: b in (set p | p in points) && Coord(b, axis) == v
  {
    var i :| 0 <= i < |vs| && vs[i] == v;
    assert points[i] in (set p | p in points);
  }

  // ---------------------------------------------------------------------------
  // Part 1: uncovered faces

  /** A face of cube `b` towards `n` that no cube covers. */
  predicate IsFace(m: LavaMap, b: Point3D, n: Point3D)
  {
    b in m.blocks && n in Neighbours(b) && n !in m.blocks
  }

  function FaceSet(m: LavaMap): (r: set<(Point3D, Point3D)>)
    ensures forall b, n :: (b, n) in r <==> IsFace(m, b, n)
  {
    set b, n | b in m.blocks && n in Neighbours(b) && n !in m.blocks :: (b, n)
  }

  predicate Distinct<T(==)>(s: seq<T>)
  {
    forall i, j :: 0 <= i < j < |s| ==> s[i] != s[j]
  }

  /** A sequence without repetitions has as many elements as its set. */
  lemma {:induction false} DistinctCard<T>(s: seq<T>)
    requires Distinct(s)
    ensures |set x | x in s| == |s|
  {
    if s != [] {
      var t := s[..|s| - 1];
      DistinctCard(t);
      assert (set x | x in s) == (set x | x in t) + {s[|s| - 1]};
    }
  }

  /** `list_surfaces`: one (cube, neighbour) pair per uncovered face, each
      once, cubes taken in no particular order; so at most six per cube. */
  method ListSurfaces(m: LavaMap) returns (res: seq<(Point3D, Point3D)>)
    ensures forall b, n :: (b, n) in res <==> IsFace(m, b, n)
    ensures Distinct(res)
    ensures |res| <= 6 * |m.blocks|
  {
    res := [];
    var remaining := m.blocks;
    while remaining != {}
      invariant remaining <= m.blocks
      invariant forall b, n :: (b, n) in res <==> b !in remaining && IsFace(m, b, n)
      invariant Distinct(res)
      invariant |res| <= 6 * |m.blocks - remaining|
      decreases remaining
    {
      var b :| b in remaining;
      var ns := Neighbours(b);
      NeighboursMeaning(b, b);
      ghost var before := res;
      for i := 0 to 6
        invariant forall c, n :: (c, n) in res <==> (c, n) in before || (c == b && n in ns[..i] && n !in m.blocks)
        invariant Distinct(res)
        invariant |res| <= |before| + i
      {
        if ns[i] !in m.blocks {
          assert (b, ns[i]) !in res;
          res := res + [(b, ns[i])];
        }
      }
      assert ns[..6] == ns;
      assert m.blocks - (remaining - {b}) == (m.blocks - remaining) + {b};
      remaining := remaining - {b};
    }
  }

  /** `count_surfaces`: the number of uncovered faces, at most six per cube. */
  method CountSurfaces(m: LavaMap) returns (count: nat)
    ensures count == |FaceSet(m)|
    ensures count <= 6 * |m.blocks|
  {
    var faces := ListSurfaces(m);
    DistinctCard(faces);
    forall f
      ensures f in faces <==> f in FaceSet(m)
    {
      assert f == (f.0, f.1);
    }
    assert (set f | f in faces) == FaceSet(m);
    count := |faces|;
  }

  // ---------------------------------------------------------------------------
  // The shell around the box

  predicate InRange(v: int, lo: int, hi: int)
  {
    lo <= v <= hi
  }

  /** A cell one step outside the box across one of its six sides, and
      inside the box's extent along the other two coordinates. */
  predicate InShell(m: LavaMap, p: Point3D)
  {
    || (InRange(p.x, m.minX, m.maxX) && InRange(p.y, m.minY, m.maxY) && (p.z == m.minZ - 1 || p.z == m.maxZ + 1))
    || (InRange(p.x, m.minX, m.maxX) && InRange(p.z, m.minZ, m.maxZ) && (p.y == m.minY - 1 || p.y == m.maxY + 1))
    || (InRange(p.y, m.minY, m.maxY) && InRange(p.z, m.minZ, m.maxZ) && (p.x == m.minX - 1 || p.x == m.maxX + 1))
  }

  /** The first pair of loops of `bounding_box`: below and above the box. */
  method AddZSides(m: LavaMap, res: set<Point3D>) returns (res': set<Point3D>)
    ensures forall p :: p in res' <==> (p in res
      || (InRange(p.x, m.minX, m.maxX) && InRange(p.y, m.minY, m.maxY) && (p.z == m.minZ - 1 || p.z == m.maxZ + 1)))
  {
    res' := res;
    var x := m.minX;
    while x <= m.maxX
      invariant x == m.minX || x <= m.maxX + 1
      invariant forall p :: p in res' <==> (p in res
        || (m.minX <= p.x < x && InRange(p.y, m.minY, m.maxY) && (p.z == m.minZ - 1 || p.z == m.maxZ + 1)))
      decreases m.maxX - x
    {
      var y := m.minY;
      while y <= m.maxY
        invariant y == m.minY || y <= m.maxY + 1
        invariant forall p :: p in res' <==> (p in res
          || ((m.minX <= p.x < x || (p.x == x && m.minY <= p.y < y))
            && InRange(p.y, m.minY, m.maxY) && (p.z == m.minZ - 1 || p.z == m.maxZ + 1)))
        decreases m.maxY - y
      {
        res' := res' + {Point3D(x, y, m.minZ - 1), Point3D(x, y, m.maxZ + 1)};
        y := y + 1;
      }
      x := x + 1;
    }
  }

  /** The second pair of loops: in front of and behind the box. */
  method AddYSides(m: LavaMap, res: set<Point3D>) returns (res': set<Point3D>)
    ensures forall p :: p in res' <==> (p in res
      || (InRange(p.x, m.minX, m.maxX) && InRange(p.z, m.minZ, m.maxZ) && (p.y == m.minY - 1 || p.y == m.maxY + 1)))
  {
    res' := res;
    var x := m.minX;
    while x <= m.maxX
      invariant x == m.minX || x <= m.maxX + 1
      invariant forall p :: p in res' <==> (p in res
        || (m.minX <= p.x < x && InRange(p.z, m.minZ, m.maxZ) && (p.y == m.minY - 1 || p.y == m.maxY + 1)))
      decreases m.maxX - x
    {
      var z := m.minZ;
      while z <= m.maxZ
        invariant z == m.minZ || z <= m.maxZ + 1
        invariant forall p :: p in res' <==> (p in res
          || ((m.minX <= p.x < x || (p.x == x && m.minZ <= p.z < z))
            && InRange(p.z, m.minZ, m.maxZ) && (p.y == m.minY - 1 || p.y == m.maxY + 1)))
        decreases m.maxZ - z
      {
        res' := res' + {Point3D(x, m.minY - 1, z), Point3D(x, m.maxY + 1, z)};
        z := z + 1;
      }
      x := x + 1;
    }
  }

  /** The third pair of loops: left and right of the box. */
  method AddXSides(m: LavaMap, res: set<Point3D>) returns (res': set<Point3D>)
    ensures forall p :: p in res' <==> (p in res
      || (InRange(p.y, m.minY, m.maxY) && InRange(p.z, m.minZ, m.maxZ) && (p.x == m.minX - 1 || p.x == m.maxX + 1)))
  {
    res' := res;
    var z := m.minZ;
    while z <= m.maxZ
      invariant z == m.minZ || z <= m.maxZ + 1
      invariant forall p :: p in res' <==> (p in res
        || (m.minZ <= p.z < z && InRange(p.y, m.minY, m.maxY) && (p.x == m.minX - 1 || p.x == m.maxX + 1)))
      decreases m.maxZ - z
    {
      var y := m.minY;
      while y <= m.maxY
        invariant y == m.minY || y <= m.maxY + 1
        invariant forall p :: p in res' <==> (p in res
          || ((m.minZ <= p.z < z || (p.z == z && m.minY <= p.y < y))
            && InRange(p.y, m.minY, m.maxY) && (p.x == m.minX - 1 || p.x == m.maxX + 1)))
        decreases m.maxY - y
      {
        res' := res' + {Point3D(m.minX - 1, y, z), Point3D(m.maxX + 1, y, z)};
        y := y + 1;
      }
      z := z + 1;
    }
  }

  /** `bounding_box`: exactly the shell, none of whose cells is on the map. */
  method BoundingBox(m: LavaMap) returns (res: set<Point3D>)
    ensures forall p :: p in res <==> InShell(m, p)
    ensures forall p :: p in res ==> !OnMap(m, p)
  {
    res := AddZSides(m, {});
    res := AddYSides(m, res);
    res := AddXSides(m, res);
  }

  // ---------------------------------------------------------------------------
  // Part 2: faces reached from outside

  /** Steam moves from a cell to a neighbouring cell of the map that is not
      a cube. */
  predicate Step(m: LavaMap, p: Point3D, q: Point3D)
  {
    q in Neighbours(p) && q !in m.blocks && OnMap(m, q)
  }

  /** A route of steam: it starts in the shell and takes steps. */
  ghost predicate IsRoute(m: LavaMap, s: seq<Point3D>)
  {
    |s| > 0 && InShell(m, s[0]) && forall i :: 0 <= i < |s| - 1 ==> Step(m, s[i], s[i + 1])
  }

  /** A cell steam reaches from outside. */
  ghost predicate Outer(m: LavaMap, p: Point3D)
  {
    exists s :: IsRoute(m, s) && s[|s| - 1] == p
  }

  /** The box widened by one in every direction: every cell the search can
      visit. */
  function Region(m: LavaMap): (r: set<Point3D>)
    ensures forall p :: p in r <==> (
      && InRange(p.x, m.minX - 1, m.maxX + 1)
      && InRange(p.y, m.minY - 1, m.maxY + 1)
      && InRange(p.z, m.minZ - 1, m.maxZ + 1))
  {
    var r := set x, y, z | m.minX - 1 <= x <= m.maxX + 1 && m.minY - 1 <= y <= m.maxY + 1 && m.minZ - 1 <= z <= m.maxZ + 1
      :: Point3D(x, y, z);
    r
  }

  /** The faces of cubes that steam from outside touches: a cell it reaches
      and the cube next to it. */
  ghost function OuterFaces(m: LavaMap): set<(Point3D, Point3D)>
  {
    set p, n | p in Region(m) && Outer(m, p) && n in Neighbours(p) && n in m.blocks :: (p, n)
  }

  lemma ShellOuter(m: LavaMap, p: Point3D)
    requires InShell(m, p)
    ensures Outer(m, p)
  {
    assert IsRoute(m, [p]);
  }

  lemma OuterStep(m: LavaMap, p: Point3D, q: Point3D)
    requires Outer(m, p) && Step(m, p, q)
    ensures Outer(m, q)
  {
    var s :| IsRoute(m, s) && s[|s| - 1] == p;
    var t := s + [q];
    assert forall i :: 0 <= i < |s| ==> t[i] == s[i];
    assert IsRoute(m, t);
  }

  /** Steam from outside is in the shell or on the map, never in a cube of a
      well-formed map. */
  lemma OuterFacts(m: LavaMap, p: Point3D)
    requires WellFormed(m) && Outer(m, p)
    ensures p in Region(m) && p !in m.blocks
  {
    var s :| IsRoute(m, s) && s[|s| - 1] == p;
    if |s| > 1 {
      assert Step(m, s[|s| - 2], s[|s| - 1]);
      assert OnMap(m, p);
    } else {
      assert InShell(m, p);
    }
  }

  /** A set holding the shell and closed under steps holds every cell steam
      reaches from outside. */
  lemma {:induction false} RouteEnds(m: LavaMap, c: set<Point3D>, s: seq<Point3D>)
    requires forall p :: InShell(m, p) ==> p in c
    requires forall p, q :: p in c && Step(m, p, q) ==> q in c
    requires IsRoute(m, s)
    ensures s[|s| - 1] in c
  {
    if |s| > 1 {
      var t := s[..|s| - 1];
      assert forall i :: 0 <= i < |t| ==> t[i] == s[i];
      assert IsRoute(m, t);
      RouteEnds(m, c, t);
      assert Step(m, s[|s| - 2], s[|s| - 1]);
    }
  }

  /** Faces that flip into another set of faces are no more numerous. */
  lemma {:induction false} FlipBound(a: set<(Point3D, Point3D)>, b: set<(Point3D, Point3D)>)
    requires forall p, n :: (p, n) in a ==> (n, p) in b
    ensures |a| <= |b|
    decreases a
  {
    if a != {} {
      var f :| f in a;
      var a', b' := a - {f}, b - {(f.1, f.0)};
      forall p, n | (p, n) in a'
        ensures (n, p) in b'
      {
        assert (p, n) != f;
      }
      FlipBound(a', b');
    }
  }

  lemma CardShrinks(r: set<Point3D>, c: set<Point3D>, c': set<Point3D>, p: Point3D)
    requires c <= c' && p in r && p in c' && p !in c
    ensures |r - c'| < |r - c|
  {
    var d := (r - c) - {p};
    assert r - c == d + {p};
    SubsetCard(r - c', d);
  }

  lemma {:induction false} SubsetCard(a: set<Point3D>, b: set<Point3D>)
    requires a <= b
    ensures |a| <= |b|
    decreases a
  {
    if a != {} {
      var x :| x in a;
      SubsetCard(a - {x}, b - {x});
    }
  }

  /** One cell of the loop in `count_outer_surfaces`: each cube next to it
      adds a face (that `list_surfaces` holds, which the source asserts),
      and each unchecked neighbour on the map joins the next round. */
  method CheckPoint(m: LavaMap, simple: seq<(Point3D, Point3D)>, p: Point3D, checked: set<Point3D>,
                    checkNext: set<Point3D>, surfaces: nat, ghost counted: set<(Point3D, Point3D)>)
    returns (checkNext': set<Point3D>, surfaces': nat, ghost counted': set<(Point3D, Point3D)>)
    requires forall b, n :: (b, n) in simple <==> IsFace(m, b, n)
    requires p !in m.blocks
    requires surfaces == |counted| && forall n :: (p, n) !in counted
    ensures surfaces' == |counted'|
    ensures forall q, n :: (q, n) in counted' <==> ((q, n) in counted || (q == p && n in Neighbours(p) && n in m.blocks))
    ensures forall q :: q in checkNext' <==> (q in checkNext || (Step(m, p, q) && q !in checked))
  {
    var ns := Neighbours(p);
    NeighboursMeaning(p, p);
    checkNext', surfaces', counted' := checkNext, surfaces, counted;
    for i := 0 to 6
      invariant surfaces' == |counted'|
      invariant forall q, n :: (q, n) in counted' <==> ((q, n) in counted || (q == p && n in ns[..i] && n in m.blocks))
      invariant forall q :: q in checkNext' <==> (q in checkNext || (q in ns[..i] && Step(m, p, q) && q !in checked))
    {
      var n := ns[i];
      assert ns[..i + 1] == ns[..i] + [n];
      if n in m.blocks {
        NeighboursMeaning(p, n);
        assert (n, p) in simple;
        assert (p, n) !in counted';
        surfaces' := surfaces' + 1;
        counted' := counted' + {(p, n)};
      } else if n !in checked && OnMap(m, n) {
        checkNext' := checkNext' + {n};
      }
    }
    assert ns[..6] == ns;
  }

  /** One round of `count_outer_surfaces`: the cells to check, in no
      particular order, each skipped when already checked. */
  method CheckRound(m: LavaMap, simple: seq<(Point3D, Point3D)>, toCheck: set<Point3D>, checked: set<Point3D>,
                    surfaces: nat, ghost counted: set<(Point3D, Point3D)>)
    returns (checked': set<Point3D>, checkNext: set<Point3D>, surfaces': nat, ghost counted': set<(Point3D, Point3D)>)
    requires forall b, n :: (b, n) in simple <==> IsFace(m, b, n)
    requires forall p :: p in toCheck ==> p !in m.blocks && Outer(m, p)
    requires surfaces == |counted|
    requires forall q, n :: (q, n) in counted <==> (q in checked && n in Neighbours(q) && n in m.blocks)
    ensures checked' == checked + toCheck
    ensures surfaces' == |counted'|
    ensures forall q, n :: (q, n) in counted' <==> (q in checked' && n in Neighbours(q) && n in m.blocks)
    ensures forall q :: q in checkNext ==> q !in m.blocks && OnMap(m, q) && Outer(m, q)
    ensures forall p, q :: p in toCheck - checked && Step(m, p, q) ==> q in checked' || q in checkNext
    ensures toCheck <= checked ==> checkNext == {}
  {
    var remaining := toCheck;
    checked', checkNext, surfaces', counted' := checked, {}, surfaces, counted;
    while remaining != {}
      invariant RoundInv(m, toCheck, checked, remaining, checked', checkNext, surfaces', counted')
      decreases remaining
    {
      var p :| p in remaining;
      checked', checkNext, surfaces', counted' := VisitPoint(m, simple, p, toCheck, checked, remaining, checked', checkNext, surfaces', counted');
      remaining := remaining - {p};
    }
  }

  /** The loop of one round of `count_outer_surfaces` with the cells
      `remaining` still to visit. */
  ghost predicate RoundInv(m: LavaMap, toCheck: set<Point3D>, checked: set<Point3D>, remaining: set<Point3D>,
                           checked': set<Point3D>, checkNext: set<Point3D>, surfaces': nat, counted': set<(Point3D, Point3D)>)
  {
    && remaining <= toCheck
    && checked' == checked + (toCheck - remaining)
    && surfaces' == |counted'|
    && (forall q, n :: (q, n) in counted' <==> (q in checked' && n in Neighbours(q) && n in m.blocks))
    && (forall q :: q in checkNext ==> q !in m.blocks && OnMap(m, q) && Outer(m, q))
    && (forall p, q :: p in (toCheck - remaining) - checked && Step(m, p, q) ==> q in checked' || q in checkNext)
    && (toCheck - remaining <= checked ==> checkNext == {})
  }

  /** One cell `p` of a round: skipped when already checked, otherwise its
      faces are counted and its unchecked neighbours join the next round. */
  method VisitPoint(m: LavaMap, simple: seq<(Point3D, Point3D)>, p: Point3D, ghost toCheck: set<Point3D>, ghost checked: set<Point3D>,
                    ghost remaining: set<Point3D>, checked': set<Point3D>, checkNext: set<Point3D>, surfaces': nat,
                    ghost counted': set<(Point3D, Point3D)>)
    returns (checked'': set<Point3D>, checkNext': set<Point3D>, surfaces'': nat, ghost counted'': set<(Point3D, Point3D)>)
    requires forall b, n :: (b, n) in simple <==> IsFace(m, b, n)
    requires forall p :: p in toCheck ==> p !in m.blocks && Outer(m, p)
    requires RoundInv(m, toCheck, checked, remaining, checked', checkNext, surfaces', counted') && p in remaining
    ensures RoundInv(m, toCheck, checked, remaining - {p}, checked'', checkNext', surfaces'', counted'')
  {
    checked'', checkNext', surfaces'', counted'' := checked', checkNext, surfaces', counted';
    if p !in checked' {
      checkNext', surfaces'', counted'' := CheckPoint(m, simple, p, checked', checkNext, surfaces', counted');
      forall q | q in checkNext' - checkNext
        ensures Outer(m, q)
      {
        OuterStep(m, p, q);
      }
      checked'' := checked' + {p};
    }
  }

  /** `count_outer_surfaces`: the cube faces that steam from outside the box
      touches, each counted once; none of them is missing from
      `list_surfaces`, so there are no more of them than in part 1. */
  method CountOuterSurfaces(m: LavaMap) returns (surfaces: nat)
    requires WellFormed(m)
    ensures surfaces == |OuterFaces(m)|
    ensures surfaces <= |FaceSet(m)|
  {
    var checked: set<Point3D> := {};
    surfaces := 0;
    ghost var counted: set<(Point3D, Point3D)> := {};
    var toCheck := BoundingBox(m);
    var simple := ListSurfaces(m);
    FloodStart(m, toCheck);
    while toCheck != {}
      invariant FloodInv(m, checked, toCheck)
      invariant surfaces == |counted|
      invariant forall q, n :: (q, n) in counted <==> (q in checked && n in Neighbours(q) && n in m.blocks)
      decreases |Region(m) - checked|, |toCheck|
    {
      ghost var before := checked;
      var checkNext;
      checked, checkNext, surfaces, counted := CheckRound(m, simple, toCheck, checked, surfaces, counted);
      RoundKeeps(m, before, toCheck, checked, checkNext);
      toCheck := checkNext;
    }
    FloodResult(m, checked, counted);
  }

  /** What `count_outer_surfaces` keeps between rounds: all cells checked or
      still to check are reached from outside, the shell is among them, and
      every step from a checked cell leads to one of them. */
  ghost predicate FloodInv(m: LavaMap, checked: set<Point3D>, toCheck: set<Point3D>)
  {
    && checked <= Region(m) && toCheck <= Region(m)
    && (forall p :: p in checked ==> Outer(m, p))
    && (forall p :: p in toCheck ==> Outer(m, p) && p !in m.blocks)
    && (forall p :: InShell(m, p) ==> p in checked || p in toCheck)
    && (forall p, q :: p in checked && Step(m, p, q) ==> q in checked || q in toCheck)
  }

  /** The search starts from the shell with nothing checked. */
  lemma FloodStart(m: LavaMap, toCheck: set<Point3D>)
    requires WellFormed(m) && forall p :: p in toCheck <==> InShell(m, p)
    ensures FloodInv(m, {}, toCheck)
  {
    forall p | p in toCheck
      ensures p !in m.blocks && Outer(m, p) && p in Region(m)
    {
      ShellOuter(m, p);
      OuterFacts(m, p);
    }
  }

  /** A round keeps the invariant, and either checks a new cell or leaves
      nothing for the next round. */
  lemma RoundKeeps(m: LavaMap, before: set<Point3D>, round: set<Point3D>, checked: set<Point3D>, checkNext: set<Point3D>)
    requires WellFormed(m) && FloodInv(m, before, round)
    requires checked == before + round
    requires forall q :: q in checkNext ==> q !in m.blocks && OnMap(m, q) && Outer(m, q)
    requires forall p, q :: p in round - before && Step(m, p, q) ==> q in checked || q in checkNext
    requires round <= before ==> checkNext == {}
    ensures FloodInv(m, checked, checkNext)
    ensures |Region(m) - checked| < |Region(m) - before| || (checked == before && checkNext == {})
  {
    if !(round <= before) {
      var p :| p in round && p !in before;
      CardShrinks(Region(m), before, checked, p);
    }
  }

  /** When the search stops, the checked cells are exactly those steam
      reaches from outside, so the faces counted are the outer faces, and
      each of them, turned round, is a face of part 1. */
  lemma FloodResult(m: LavaMap, checked: set<Point3D>, counted: set<(Point3D, Point3D)>)
    requires WellFormed(m)
    requires forall p :: p in checked ==> Outer(m, p)
    requires forall p :: InShell(m, p) ==> p in checked
    requires forall p, q :: p in checked && Step(m, p, q) ==> q in checked
    requires forall q, n :: (q, n) in counted <==> (q in checked && n in Neighbours(q) && n in m.blocks)
    ensures counted == OuterFaces(m)
    ensures |counted| <= |FaceSet(m)|
  {
    forall p | Outer(m, p)
      ensures p in checked
    {
      var s :| IsRoute(m, s) && s[|s| - 1] == p;
      RouteEnds(m, checked, s);
    }
    forall f
      ensures f in counted <==> f in OuterFaces(m)
    {
      assert f == (f.0, f.1);
      if f.0 in checked {
        OuterFacts(m, f.0);
      }
    }
    forall p, n | (p, n) in counted
      ensures (n, p) in FaceSet(m)
    {
      OuterFacts(m, p);
      NeighboursMeaning(p, n);
    }
    FlipBound(counted, FaceSet(m));
  }
}
