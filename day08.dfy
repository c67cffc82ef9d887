/** Treetop tree house (day 8): a grid of digit tree heights; a tree is
    visible from outside when every tree between it and some edge is
    lower, and its scenic score multiplies how far it can see in each of
    the four directions. */
module Day08 {
  import opened Common

  /** `Trees`: the heights row by row, with the number of rows and the
      number of columns (the length of the first row). */
  datatype Trees = Trees(trees: seq<seq<int>>, rows: nat, cols: nat)

  /** The heights of one line of digits. */
  function RowOf(line: string): (r: seq<int>)
    requires AllDigits(line)
    ensures |r| == |line|
    ensures forall i :: 0 <= i < |line| ==> 0 <= r[i] <= 9 && r[i] == DigitValue(line[i])
  {
    seq(|line|, i requires 0 <= i < |line| => DigitValue(line[i]) as int)
  }

  /** `Trees::parse`: one row per line, one digit per character. None
      where the source panics: a character that is not a digit, or no
      lines at all (`trees[0]`). */
  method Parse(lines: seq<string>) returns (r: Option<Trees>)
    ensures r.Some? <==> lines != [] && forall i :: 0 <= i < |lines| ==> AllDigits(lines[i])
    ensures r.Some? ==> r.value.rows == |lines| == |r.value.trees| && r.value.cols == |lines[0]|
    ensures r.Some? ==> forall i :: 0 <= i < |lines| ==> r.value.trees[i] == RowOf(lines[i])
  {
    var trees: seq<seq<int>> := [];
    for k := 0 to |lines|
      invariant |trees| == k
      invariant forall i :: 0 <= i < k ==> AllDigits(lines[i]) && trees[i] == RowOf(lines[i])
    {
      var line := lines[k];
      var currentRow: seq<int> := [];
      for j := 0 to |line|
        invariant AllDigits(line[..j])
        invariant currentRow == RowOf(line[..j])
      {
        if !IsDigit(line[j]) {
          return None;
        }
        currentRow := currentRow + [DigitValue(line[j]) as int];
      }
      assert line[..|line|] == line;
      trees := trees + [currentRow];
    }
    if |trees| == 0 {
      return None;
    }
    r := Some(Trees(trees, |trees|, |trees[0]|));
  }

  /** The heights cover every column index below `cols` in every row, so
      no query of the source indexes out of range. */
  predicate Covers(t: Trees)
  {
    |t.trees| == t.rows && forall r :: 0 <= r < t.rows ==> |t.trees[r]| >= t.cols
  }

  predicate InGrid(t: Trees, row: nat, col: nat)
  {
    row < t.rows && col < t.cols
  }

  // ---------------------------------------------------------------------------
  // Visibility

  /** `is_visible`: all trees above, or all below, or all to the left, or
      all to the right are strictly lower. */
  predicate IsVisible(t: Trees, row: nat, col: nat)
    requires Covers(t) && InGrid(t, row, col)
  {
    LowerAbove(t, row, col) || LowerBelow(t, row, col) || LowerLeft(t, row, col) || LowerRight(t, row, col)
  }

  predicate LowerAbove(t: Trees, row: nat, col: nat)
    requires Covers(t) && InGrid(t, row, col)
  {
    forall r :: 0 <= r < row ==> t.trees[r][col] < t.trees[row][col]
  }

  predicate LowerBelow(t: Trees, row: nat, col: nat)
    requires Covers(t) && InGrid(t, row, col)
  {
    forall r :: row + 1 <= r < t.rows ==> t.trees[r][col] < t.trees[row][col]
  }

  predicate LowerLeft(t: Trees, row: nat, col: nat)
    requires Covers(t) && InGrid(t, row, col)
  {
    forall c :: 0 <= c < col ==> t.trees[row][c] < t.trees[row][col]
  }

  predicate LowerRight(t: Trees, row: nat, col: nat)
    requires Covers(t) && InGrid(t, row, col)
  {
    forall c :: col + 1 <= c < t.cols ==> t.trees[row][c] < t.trees[row][col]
  }

  /** A tree on the edge of the grid has no tree in some direction. */
  lemma EdgeVisible(t: Trees, row: nat, col: nat)
    requires Covers(t) && InGrid(t, row, col)
    requires row == 0 || col == 0 || row == t.rows - 1 || col == t.cols - 1
    ensures IsVisible(t, row, col)
  {
  }

  /** The number of visible trees in the first `n` columns of `row`. */
  function VisibleInRow(t: Trees, row: nat, n: nat): (r: nat)
    requires Covers(t) && row < t.rows && n <= t.cols
    ensures r <= n
  {
    if n == 0 then 0 else VisibleInRow(t, row, n - 1) + (if IsVisible(t, row, n - 1) then 1 else 0)
  }

  /** `part_1`'s count over the first `n` rows. */
  function VisibleCount(t: Trees, n: nat): nat
    requires Covers(t) && n <= t.rows
  {
    if n == 0 then 0 else VisibleCount(t, n - 1) + VisibleInRow(t, n - 1, t.cols)
  }

  /** The visible trees of row `row` among its first `n` columns, as cells. */
  ghost function VisibleCellsOfRow(t: Trees, row: nat, n: nat): set<(nat, nat)>
    requires Covers(t) && row < t.rows && n <= t.cols
  {
    set c: nat | c < n && IsVisible(t, row, c) :: (row, c)
  }

  /** The visible trees of the first `n` rows, as cells, row by row. */
  ghost function VisibleCells(t: Trees, n: nat): set<(nat, nat)>
    requires Covers(t) && n <= t.rows
  {
    if n == 0 then {} else VisibleCells(t, n - 1) + VisibleCellsOfRow(t, n - 1, t.cols)
  }

  /** A cell is among the visible cells of the first `n` rows exactly when
      it lies in those rows and its tree is visible. */
  lemma {:induction false} VisibleCellsMeaning(t: Trees, n: nat, p: (nat, nat))
    requires Covers(t) && n <= t.rows
    ensures p in VisibleCells(t, n) <==> p.0 < n && p.1 < t.cols && IsVisible(t, p.0, p.1)
  {
    if n > 0 {
      VisibleCellsMeaning(t, n - 1, p);
    }
  }

  /** The count of a row is the number of its visible trees. */
  lemma {:induction false} VisibleCellsOfRowCount(t: Trees, row: nat, n: nat)
    requires Covers(t) && row < t.rows && n <= t.cols
    ensures VisibleInRow(t, row, n) == |VisibleCellsOfRow(t, row, n)|
  {
    if n > 0 {
      VisibleCellsOfRowCount(t, row, n - 1);
      var cur := VisibleCellsOfRow(t, row, n);
      var prev := VisibleCellsOfRow(t, row, n - 1);
      if IsVisible(t, row, n - 1) {
        assert cur == prev + {(row, n - 1)};
      } else {
        assert cur == prev;
      }
    }
  }

  /** The visible cells of row `row` all lie in that row. */
  lemma RowCellsInRow(t: Trees, row: nat, n: nat, p: (nat, nat))
    requires Covers(t) && row < t.rows && n <= t.cols
    requires p in VisibleCellsOfRow(t, row, n)
    ensures p.0 == row
  {
  }

  /** The count of `n` rows adds the count of row `n - 1` to that of the
      rows before. */
  lemma VisibleCountStep(t: Trees, n: nat, n': nat)
    requires Covers(t) && 0 < n <= t.rows && n' == n - 1
    ensures VisibleCount(t, n) == VisibleCount(t, n') + VisibleInRow(t, n', t.cols)
  {
  }

  /** The visible cells of `n` rows add the new cells of row `n - 1` to
      those of the rows before. */
  lemma VisibleCellsStep(t: Trees, n: nat, n': nat)
    requires Covers(t) && 0 < n <= t.rows && n' == n - 1
    ensures VisibleCells(t, n) == VisibleCells(t, n') + VisibleCellsOfRow(t, n', t.cols)
    ensures VisibleCells(t, n') * VisibleCellsOfRow(t, n', t.cols) == {}
  {
    forall p | p in VisibleCellsOfRow(t, n', t.cols) ensures p !in VisibleCells(t, n') {
      RowCellsInRow(t, n', t.cols, p);
      VisibleCellsMeaning(t, n', p);
    }
  }

  /** Counts of two disjoint sets add up to the count of their union. */
  lemma DisjointUnionCard<T>(a: set<T>, b: set<T>, ca: nat, cb: nat, all: set<T>, c: nat)
    requires a * b == {}
    requires ca == |a| && cb == |b| && all == a + b && c == ca + cb
    ensures c == |all|
  {
  }

  /** `part_1`'s sum over the rows counts every visible tree of the grid
      exactly once. */
  lemma {:induction false} VisibleCountCounts(t: Trees, n: nat)
    requires Covers(t) && n <= t.rows
    ensures VisibleCount(t, n) == |VisibleCells(t, n)|
  {
    if n == 0 {
      assert VisibleCells(t, n) == {};
    } else {
      var n' := n - 1;
      VisibleCountCounts(t, n');
      VisibleCellsOfRowCount(t, n', t.cols);
      VisibleCountStep(t, n, n');
      VisibleCellsStep(t, n, n');
      var prev, row := VisibleCells(t, n'), VisibleCellsOfRow(t, n', t.cols);
      DisjointUnionCard(prev, row, VisibleCount(t, n'), VisibleInRow(t, n', t.cols), VisibleCells(t, n), VisibleCount(t, n));
    }
  }

  // ---------------------------------------------------------------------------
  // Scenic scores

  /** What a tree of `height` sees along `view`, nearest tree first: the
      trees up to and including the first one at least as tall. */
  function ViewingDistance(height: int, view: seq<int>): (r: nat)
    ensures r <= |view|
  {
    if view == [] then 0
    else if view[0] >= height then 1
    else 1 + ViewingDistance(height, view[1..])
  }

  /** The view stops at the first tree at least as tall, counting it, and
      every tree before it is lower. */
  lemma {:induction false} ViewingDistanceMeaning(height: int, view: seq<int>)
    ensures ViewingDistance(height, view) < |view| ==>
      (ViewingDistance(height, view) > 0 && view[ViewingDistance(height, view) - 1] >= height)
    ensures forall i :: 0 <= i < ViewingDistance(height, view) - 1 ==> view[i] < height
  {
    if view != [] && view[0] < height {
      ViewingDistanceMeaning(height, view[1..]);
      assert forall i :: 1 <= i < |view| ==> view[i] == view[1..][i - 1];
    }
  }

  /** The view is unobstructed exactly when the tree sees every tree in
      that direction and the last of them is lower too. */
  lemma {:induction false} ClearView(height: int, view: seq<int>)
    ensures (forall i :: 0 <= i < |view| ==> view[i] < height) <==>
      (ViewingDistance(height, view) == |view| && (view == [] || view[|view| - 1] < height))
  {
    if view != [] && view[0] < height {
      ClearView(height, view[1..]);
      assert forall i :: 1 <= i < |view| ==> view[i] == view[1..][i - 1];
    }
  }

  predicate AllInGrid(t: Trees, cells: seq<(nat, nat)>)
  {
    Covers(t) && forall i :: 0 <= i < |cells| ==> cells[i].0 < t.rows && cells[i].1 < t.cols
  }

  /** The cells from `(row, col)` to an edge, nearest first. */
  function Up(t: Trees, row: nat, col: nat): (r: seq<(nat, nat)>)
    requires Covers(t) && InGrid(t, row, col)
    ensures |r| == row && AllInGrid(t, r)
    ensures forall i :: 0 <= i < row ==> r[i] == (row - 1 - i, col)
  {
    seq(row, i requires 0 <= i < row => (row - 1 - i, col))
  }

  function Down(t: Trees, row: nat, col: nat): (r: seq<(nat, nat)>)
    requires Covers(t) && InGrid(t, row, col)
    ensures |r| == t.rows - row - 1 && AllInGrid(t, r)
    ensures forall i :: 0 <= i < t.rows - row - 1 ==> r[i] == (row + 1 + i, col)
  {
    seq(t.rows - row - 1, i requires 0 <= i < t.rows - row - 1 => (row + 1 + i, col))
  }

  function Left(t: Trees, row: nat, col: nat): (r: seq<(nat, nat)>)
    requires Covers(t) && InGrid(t, row, col)
    ensures |r| == col && AllInGrid(t, r)
    ensures forall i :: 0 <= i < col ==> r[i] == (row, col - 1 - i)
  {
    seq(col, i requires 0 <= i < col => (row, col - 1 - i))
  }

  function Right(t: Trees, row: nat, col: nat): (r: seq<(nat, nat)>)
    requires Covers(t) && InGrid(t, row, col)
    ensures |r| == t.cols - col - 1 && AllInGrid(t, r)
    ensures forall i :: 0 <= i < t.cols - col - 1 ==> r[i] == (row, col + 1 + i)
  {
    seq(t.cols - col - 1, i requires 0 <= i < t.cols - col - 1 => (row, col + 1 + i))
  }

  /** The heights from `(row, col)` to an edge, nearest first. */
  function ViewUp(t: Trees, row: nat, col: nat): (r: seq<int>)
    requires Covers(t) && InGrid(t, row, col)
    ensures |r| == row
    ensures forall i :: 0 <= i < row ==> r[i] == t.trees[row - 1 - i][col]
  {
    seq(row, i requires 0 <= i < row => t.trees[row - 1 - i][col])
  }

  function ViewDown(t: Trees, row: nat, col: nat): (r: seq<int>)
    requires Covers(t) && InGrid(t, row, col)
    ensures |r| == t.rows - row - 1
    ensures forall i :: 0 <= i < t.rows - row - 1 ==> r[i] == t.trees[row + 1 + i][col]
  {
    seq(t.rows - row - 1, i requires 0 <= i < t.rows - row - 1 => t.trees[row + 1 + i][col])
  }

  function ViewLeft(t: Trees, row: nat, col: nat): (r: seq<int>)
    requires Covers(t) && InGrid(t, row, col)
    ensures |r| == col
    ensures forall i :: 0 <= i < col ==> r[i] == t.trees[row][col - 1 - i]
  {
    seq(col, i requires 0 <= i < col => t.trees[row][col - 1 - i])
  }

  function ViewRight(t: Trees, row: nat, col: nat): (r: seq<int>)
    requires Covers(t) && InGrid(t, row, col)
    ensures |r| == t.cols - col - 1
    ensures forall i :: 0 <= i < t.cols - col - 1 ==> r[i] == t.trees[row][col + 1 + i]
  {
    seq(t.cols - col - 1, i requires 0 <= i < t.cols - col - 1 => t.trees[row][col + 1 + i])
  }

  /** The heights of `cells`, in their order. */
  function HeightsAt(t: Trees, cells: seq<(nat, nat)>): (r: seq<int>)
    requires AllInGrid(t, cells)
    ensures |r| == |cells|
    ensures forall i :: 0 <= i < |cells| ==> r[i] == t.trees[cells[i].0][cells[i].1]
  {
    seq(|cells|, i requires 0 <= i < |cells| => t.trees[cells[i].0][cells[i].1])
  }

  /** `scenic_dir`: counts the cells of `cells` up to and including the
      first tree at least `height` tall. */
  method ScenicDir(t: Trees, height: int, cells: seq<(nat, nat)>) returns (res: nat)
    requires AllInGrid(t, cells)
    ensures res == ViewingDistance(height, HeightsAt(t, cells))
  {
    res := 0;
    ghost var view := HeightsAt(t, cells);
    for k := 0 to |cells|
      invariant res == k
      invariant forall i :: 0 <= i < k ==> view[i] < height
    {
      var (row, col) := cells[k];
      res := res + 1;
      if t.trees[row][col] >= height {
        FirstTall(height, view, k);
        return;
      }
    }
    AllLower(height, view);
  }

  lemma {:induction false} FirstTall(height: int, view: seq<int>, k: nat)
    requires k < |view| && view[k] >= height
    requires forall i :: 0 <= i < k ==> view[i] < height
    ensures ViewingDistance(height, view) == k + 1
  {
    if k > 0 {
      FirstTall(height, view[1..], k - 1);
    }
  }

  lemma {:induction false} AllLower(height: int, view: seq<int>)
    requires forall i :: 0 <= i < |view| ==> view[i] < height
    ensures ViewingDistance(height, view) == |view|
  {
    if view != [] {
      AllLower(height, view[1..]);
    }
  }

  /** How far the tree at `(row, col)` sees towards each edge. */
  function DistanceUp(t: Trees, row: nat, col: nat): nat
    requires Covers(t) && InGrid(t, row, col)
  {
    ViewingDistance(t.trees[row][col], ViewUp(t, row, col))
  }

  function DistanceDown(t: Trees, row: nat, col: nat): nat
    requires Covers(t) && InGrid(t, row, col)
  {
    ViewingDistance(t.trees[row][col], ViewDown(t, row, col))
  }

  function DistanceLeft(t: Trees, row: nat, col: nat): nat
    requires Covers(t) && InGrid(t, row, col)
  {
    ViewingDistance(t.trees[row][col], ViewLeft(t, row, col))
  }

  function DistanceRight(t: Trees, row: nat, col: nat): nat
    requires Covers(t) && InGrid(t, row, col)
  {
    ViewingDistance(t.trees[row][col], ViewRight(t, row, col))
  }

  function Product(a: nat, b: nat, c: nat, d: nat): nat
  {
    a * b * c * d
  }

  /** The product of the four viewing distances of the tree at `(row, col)`. */
  function ScenicValue(t: Trees, row: nat, col: nat): nat
    requires Covers(t) && InGrid(t, row, col)
  {
    Product(DistanceUp(t, row, col), DistanceDown(t, row, col), DistanceLeft(t, row, col), DistanceRight(t, row, col))
  }

  /** The cells the source walks through carry the heights of the views. */
  lemma CellsMatchViews(t: Trees, row: nat, col: nat)
    requires Covers(t) && InGrid(t, row, col)
    ensures HeightsAt(t, Up(t, row, col)) == ViewUp(t, row, col)
    ensures HeightsAt(t, Down(t, row, col)) == ViewDown(t, row, col)
    ensures HeightsAt(t, Left(t, row, col)) == ViewLeft(t, row, col)
    ensures HeightsAt(t, Right(t, row, col)) == ViewRight(t, row, col)
  {
  }

  /** `scenic_score`: looks up, down, left and right. */
  method ScenicScore(t: Trees, row: nat, col: nat) returns (score: nat)
    requires Covers(t) && InGrid(t, row, col)
    ensures score == ScenicValue(t, row, col)
  {
    var height := t.trees[row][col];
    var up := ScenicDir(t, height, Up(t, row, col));
    var down := ScenicDir(t, height, Down(t, row, col));
    var left := ScenicDir(t, height, Left(t, row, col));
    var right := ScenicDir(t, height, Right(t, row, col));
    CellsMatchViews(t, row, col);
    score := Product(up, down, left, right);
  }

  /** A tree on the edge sees nothing in one direction, so it scores 0. */
  lemma EdgeScoresZero(t: Trees, row: nat, col: nat)
    requires Covers(t) && InGrid(t, row, col)
    requires row == 0 || col == 0 || row == t.rows - 1 || col == t.cols - 1
    ensures ScenicValue(t, row, col) == 0
  {
    if row == 0 {
      assert DistanceUp(t, row, col) == 0;
    } else if col == 0 {
      assert DistanceLeft(t, row, col) == 0;
    } else if row == t.rows - 1 {
      assert DistanceDown(t, row, col) == 0;
    } else {
      assert DistanceRight(t, row, col) == 0;
    }
  }

  /** The whole view is seen and its far end is lower. */
  predicate Clear(height: int, view: seq<int>)
  {
    ViewingDistance(height, view) == |view| && (view == [] || view[|view| - 1] < height)
  }

  lemma ClearAbove(t: Trees, row: nat, col: nat)
    requires Covers(t) && InGrid(t, row, col)
    ensures LowerAbove(t, row, col) <==> Clear(t.trees[row][col], ViewUp(t, row, col))
  {
    var h, view := t.trees[row][col], ViewUp(t, row, col);
    ClearView(h, view);
    assert forall r :: 0 <= r < row ==> t.trees[r][col] == view[row - 1 - r];
  }

  lemma ClearBelow(t: Trees, row: nat, col: nat)
    requires Covers(t) && InGrid(t, row, col)
    ensures LowerBelow(t, row, col) <==> Clear(t.trees[row][col], ViewDown(t, row, col))
  {
    var h, view := t.trees[row][col], ViewDown(t, row, col);
    ClearView(h, view);
    assert forall r :: row + 1 <= r < t.rows ==> t.trees[r][col] == view[r - row - 1];
  }

  lemma ClearLeft(t: Trees, row: nat, col: nat)
    requires Covers(t) && InGrid(t, row, col)
    ensures LowerLeft(t, row, col) <==> Clear(t.trees[row][col], ViewLeft(t, row, col))
  {
    var h, view := t.trees[row][col], ViewLeft(t, row, col);
    ClearView(h, view);
    assert forall c :: 0 <= c < col ==> t.trees[row][c] == view[col - 1 - c];
  }

  lemma ClearRight(t: Trees, row: nat, col: nat)
    requires Covers(t) && InGrid(t, row, col)
    ensures LowerRight(t, row, col) <==> Clear(t.trees[row][col], ViewRight(t, row, col))
  {
    var h, view := t.trees[row][col], ViewRight(t, row, col);
    ClearView(h, view);
    assert forall c :: col + 1 <= c < t.cols ==> t.trees[row][c] == view[c - col - 1];
  }

  /** Visible exactly when, in some direction, the scenic count sees the
      whole view and the far end of it is lower. */
  lemma VisibleMeaning(t: Trees, row: nat, col: nat)
    requires Covers(t) && InGrid(t, row, col)
    ensures IsVisible(t, row, col) <==>
      (Clear(t.trees[row][col], ViewUp(t, row, col))
       || Clear(t.trees[row][col], ViewDown(t, row, col))
       || Clear(t.trees[row][col], ViewLeft(t, row, col))
       || Clear(t.trees[row][col], ViewRight(t, row, col)))
  {
    ClearAbove(t, row, col);
    ClearBelow(t, row, col);
    ClearLeft(t, row, col);
    ClearRight(t, row, col);
  }

  /** The inner `max` of `part_2`: the largest scenic score of one row. */
  method BestInRow(t: Trees, row: nat) returns (m: nat, ghost bestCol: nat)
    requires Covers(t) && row < t.rows && t.cols > 0
    ensures InGrid(t, row, bestCol) && m == ScenicValue(t, row, bestCol)
    ensures forall c: nat :: c < t.cols ==> ScenicValue(t, row, c) <= m
  {
    m := ScenicScore(t, row, 0);
    bestCol := 0;
    for col := 1 to t.cols
      invariant InGrid(t, row, bestCol) && m == ScenicValue(t, row, bestCol)
      invariant forall c: nat :: c < col ==> ScenicValue(t, row, c) <= m
    {
      var s := ScenicScore(t, row, col);
      ghost var before := m;
      if s > m {
        m, bestCol := s, col;
      }
      assert before <= m && s <= m;
    }
  }

  /** `part_2`: the largest scenic score of the grid; None where the
      source's `max().unwrap()` panics, on a grid without rows or columns. */
  method BestScenicScore(t: Trees) returns (best: Option<nat>)
    requires Covers(t)
    ensures best.Some? <==> t.rows > 0 && t.cols > 0
    ensures best.Some? ==> exists row: nat, col: nat :: InGrid(t, row, col) && best.value == ScenicValue(t, row, col)
    ensures best.Some? ==> forall row: nat, col: nat :: InGrid(t, row, col) ==> ScenicValue(t, row, col) <= best.value
  {
    if t.rows == 0 || t.cols == 0 {
      return None;
    }
    var m, bestCol := BestInRow(t, 0);
    ghost var bestRow := 0;
    for row := 1 to t.rows
      invariant InGrid(t, bestRow, bestCol) && m == ScenicValue(t, bestRow, bestCol)
      invariant forall r: nat, c: nat :: r < row && c < t.cols ==> ScenicValue(t, r, c) <= m
    {
      var s, col := BestInRow(t, row);
      if s > m {
        m, bestRow, bestCol := s, row, col;
      }
      assert forall c: nat :: c < t.cols ==> ScenicValue(t, row, c) <= m;
    }
    return Some(m);
  }
}
