/** Camp cleanup (day 4): each line holds two section assignments, inclusive
    ranges written "a-b", separated by a comma; the parts count the pairs
    where one assignment contains the other and the pairs that overlap. */
module Day04 {
  import opened Common

  /** `Assign`: the inclusive range `start..=end`. */
  datatype Assign = Assign(start: int, end: int)

  predicate Covers(a: Assign, x: int)
  {
    a.start <= x <= a.end
  }

  const I32_MIN: int := -0x8000_0000
  const I32_MAX: int := 0x7FFF_FFFF

  // ---------------------------------------------------------------------------
  // Parsing

  /** `str::split` on one character: the pieces between the separators, at
      least one, none holding the separator. */
  function SplitOn(s: string, sep: char): (r: seq<string>)
    ensures |r| >= 1
    ensures forall k :: 0 <= k < |r| ==> sep !in r[k]
  {
    if s == [] then [""]
    else
      var rest := SplitOn(s[1..], sep);
      if s[0] == sep then [""] + rest
      else [[s[0]] + rest[0]] + rest[1..]
  }

  /** The pieces joined with the separator between them. */
  function JoinWith(parts: seq<string>, sep: char): string
    requires |parts| >= 1
  {
    if |parts| == 1 then parts[0] else parts[0] + [sep] + JoinWith(parts[1..], sep)
  }

  /** A piece without the separator, then the separator, comes off whole. */
  lemma {:induction false} SplitWord(w: string, sep: char, rest: string)
    requires sep !in w
    ensures SplitOn(w + [sep] + rest, sep) == [w] + SplitOn(rest, sep)
  {
    var s := w + [sep] + rest;
    if w == [] {
      assert s == [sep] + rest;
      assert s[1..] == rest;
    } else {
      assert s[1..] == w[1..] + [sep] + rest;
      SplitWord(w[1..], sep, rest);
      assert [w[0]] + w[1..] == w;
    }
  }

  lemma {:induction false} SplitNone(w: string, sep: char)
    requires sep !in w
    ensures SplitOn(w, sep) == [w]
  {
    if w != [] {
      SplitNone(w[1..], sep);
      assert [w[0]] + w[1..] == w;
    }
  }

  /** Splitting undoes joining pieces that do not hold the separator. */
  lemma {:induction false} SplitJoin(parts: seq<string>, sep: char)
    requires |parts| >= 1
    requires forall k :: 0 <= k < |parts| ==> sep !in parts[k]
    ensures SplitOn(JoinWith(parts, sep), sep) == parts
  {
    if |parts| == 1 {
      SplitNone(parts[0], sep);
    } else {
      SplitJoin(parts[1..], sep);
      SplitWord(parts[0], sep, JoinWith(parts[1..], sep));
      assert [parts[0]] + parts[1..] == parts;
    }
  }

  /** `str::parse::<i32>()`: a decimal integer in the 32-bit range. */
  function ParseI32(s: string): (r: Option<int>)
    ensures r.Some? ==> I32_MIN <= r.value <= I32_MAX
  {
    match ParseInt(s)
    case Some(v) => if I32_MIN <= v <= I32_MAX then Some(v) else None
    case None => None
  }

  /** Every piece parses; None for the first one that does not. */
  function ParseAll(pieces: seq<string>): (r: Option<seq<int>>)
    ensures r.Some? ==> |r.value| == |pieces|
    ensures r.Some? ==> forall k :: 0 <= k < |pieces| ==> ParseI32(pieces[k]) == Some(r.value[k])
    ensures r.None? ==> exists k :: 0 <= k < |pieces| && ParseI32(pieces[k]).None?
  {
    if pieces == [] then Some([])
    else
      var head, tail := ParseI32(pieces[0]), ParseAll(pieces[1..]);
      if head.Some? && tail.Some? then Some([head.value] + tail.value) else None
  }

  lemma ParseAllTwo(x: string, y: string, u: int, v: int)
    requires ParseI32(x) == Some(u) && ParseI32(y) == Some(v)
    ensures ParseAll([x, y]) == Some([u, v])
  {
    assert [y][1..] == [];
    assert [v] + [] == [v];
    assert ParseAll([y]) == Some([v]);
    assert [x, y][1..] == [y];
    assert [u] + [v] == [u, v];
  }

  /** `parse_assignment`: every piece between dashes is parsed (`unwrap` on
      each), then the first two are the bounds. None where the source
      panics: a piece that is not a 32-bit number, or a single piece. */
  function ParseAssignment(s: string): Option<Assign>
  {
    match ParseAll(SplitOn(s, '-'))
    case Some(tokens) => if |tokens| < 2 then None else Some(Assign(tokens[0], tokens[1]))
    case None => None
  }

  /** How the puzzle writes an assignment of non-negative bounds. */
  function ShowAssign(a: Assign): string
    requires a.start >= 0 && a.end >= 0
  {
    ShowNat(a.start) + "-" + ShowNat(a.end)
  }

  /** A written assignment reads back, as long as its bounds fit in `i32`. */
  lemma ParseShowAssign(a: Assign)
    requires 0 <= a.start <= I32_MAX && 0 <= a.end <= I32_MAX
    ensures ParseAssignment(ShowAssign(a)) == Some(a)
  {
    var x, y := ShowNat(a.start), ShowNat(a.end);
    DigitsHaveNoDash(x);
    DigitsHaveNoDash(y);
    assert JoinWith([x, y], '-') == ShowAssign(a);
    SplitJoin([x, y], '-');
    ParseShowNat(a.start);
    ParseShowNat(a.end);
    assert ParseI32(x) == Some(a.start);
    assert ParseI32(y) == Some(a.end);
    ParseAllTwo(x, y, a.start, a.end);
  }

  lemma DigitsHaveNoDash(s: string)
    requires AllDigits(s)
    ensures '-' !in s && ',' !in s
  {
  }

  /** `parse_assignments`: the two comma-separated assignments of a line,
      further pieces ignored. None where the source panics. */
  function ParseAssignments(line: string): Option<(Assign, Assign)>
  {
    var tokens := SplitOn(line, ',');
    if |tokens| < 2 then None
    else match (ParseAssignment(tokens[0]), ParseAssignment(tokens[1]))
      case (Some(a), Some(b)) => Some((a, b))
      case _ => None
  }

  /** A written pair reads back. */
  lemma ParseShowAssignments(a: Assign, b: Assign)
    requires 0 <= a.start <= I32_MAX && 0 <= a.end <= I32_MAX
    requires 0 <= b.start <= I32_MAX && 0 <= b.end <= I32_MAX
    ensures ParseAssignments(ShowAssign(a) + "," + ShowAssign(b)) == Some((a, b))
  {
    var x, y := ShowAssign(a), ShowAssign(b);
    CommaFree(a);
    CommaFree(b);
    assert JoinWith([x, y], ',') == x + "," + y;
    SplitJoin([x, y], ',');
    ParseShowAssign(a);
    ParseShowAssign(b);
  }

  lemma CommaFree(a: Assign)
    requires a.start >= 0 && a.end >= 0
    ensures ',' !in ShowAssign(a)
  {
    DigitsHaveNoDash(ShowNat(a.start));
    DigitsHaveNoDash(ShowNat(a.end));
  }

  // ---------------------------------------------------------------------------
  // Containment and overlap

  /** `assign_contains` as written: the start and the end of `assign` are
      both at most those of `sub`. */
  predicate AssignContains(assign: Assign, sub: Assign)
  {
    assign.start <= sub.start && assign.end <= sub.end
  }

  /** As written, the test is not containment: 2-8 holds every section of
      3-7 yet fails it, and 2-3 passes it without holding 7. */
  lemma AssignContainsIsNotContainment()
    ensures !AssignContains(Assign(2, 8), Assign(3, 7))
    ensures forall x :: Covers(Assign(3, 7), x) ==> Covers(Assign(2, 8), x)
    ensures AssignContains(Assign(2, 3), Assign(3, 7))
    ensures Covers(Assign(3, 7), 7) && !Covers(Assign(2, 3), 7)
  {
  }

  /** The evidently intended test: `assign` starts no later and ends no
      earlier than `sub`. */
  predicate Contains(assign: Assign, sub: Assign)
  {
    assign.start <= sub.start && sub.end <= assign.end
  }

  /** For a non-empty `sub`, the corrected test is exactly containment of
      sections. */
  lemma ContainsMeaning(assign: Assign, sub: Assign)
    requires sub.start <= sub.end
    ensures Contains(assign, sub) <==> forall x :: Covers(sub, x) ==> Covers(assign, x)
  {
    if forall x :: Covers(sub, x) ==> Covers(assign, x) {
      assert Covers(sub, sub.start) && Covers(sub, sub.end);
    }
  }

  /** `one_contains_another` as written. */
  predicate OneContainsAnotherAsWritten(a: Assign, b: Assign)
  {
    AssignContains(a, b) || AssignContains(b, a)
  }

  /** As written the test holds for every pair whose bounds are ordered
      the same way, however far apart the ranges are. */
  lemma AsWrittenHoldsApart()
    ensures OneContainsAnotherAsWritten(Assign(1, 2), Assign(5, 6))
    ensures !Overlap(Assign(1, 2), Assign(5, 6))
  {
  }

  /** `one_contains_another`, corrected. */
  predicate OneContainsAnother(a: Assign, b: Assign)
  {
    Contains(a, b) || Contains(b, a)
  }

  /** Both forms are symmetric in their arguments. */
  lemma OneContainsAnotherSymmetric(a: Assign, b: Assign)
    ensures OneContainsAnother(a, b) == OneContainsAnother(b, a)
    ensures OneContainsAnotherAsWritten(a, b) == OneContainsAnotherAsWritten(b, a)
  {
  }

  /** The corrected test holds when one assignment has every section of the
      other; containment implies overlap for non-empty ranges. */
  lemma OneContainsAnotherMeaning(a: Assign, b: Assign)
    requires a.start <= a.end && b.start <= b.end
    ensures OneContainsAnother(a, b) <==>
      ((forall x :: Covers(b, x) ==> Covers(a, x)) || (forall x :: Covers(a, x) ==> Covers(b, x)))
    ensures OneContainsAnother(a, b) ==> Overlap(a, b)
  {
    ContainsMeaning(a, b);
    ContainsMeaning(b, a);
  }

  /** `assignments_overlap`. */
  predicate Overlap(a: Assign, b: Assign)
  {
    a.start <= b.end && b.start <= a.end
  }

  /** Overlap is symmetric, and for non-empty ranges it holds exactly when
      some section lies in both. */
  lemma OverlapMeaning(a: Assign, b: Assign)
    requires a.start <= a.end && b.start <= b.end
    ensures Overlap(a, b) == Overlap(b, a)
    ensures Overlap(a, b) <==> exists x :: Covers(a, x) && Covers(b, x)
  {
    if Overlap(a, b) {
      var x := Max(a.start, b.start);
      assert Covers(a, x) && Covers(b, x);
    }
  }

  // ---------------------------------------------------------------------------
  // The parts

  /** How many pairs pass `test`, counted from the last pair backwards
      (the order does not change a count). */
  function CountWhere(pairs: seq<(Assign, Assign)>, test: (Assign, Assign) -> bool): (r: nat)
    ensures r <= |pairs|
  {
    if pairs == [] then 0
    else
      var last := pairs[|pairs| - 1];
      CountWhere(pairs[..|pairs| - 1], test) + (if test(last.0, last.1) then 1 else 0)
  }

  /** The indices of the pairs that pass `test`. */
  ghost function Where(pairs: seq<(Assign, Assign)>, test: (Assign, Assign) -> bool): set<nat>
  {
    set k: nat | k < |pairs| && test(pairs[k].0, pairs[k].1)
  }

  /** `filter(..).count()`: the count is the number of pairs that pass. */
  lemma {:induction false} CountWhereMeaning(pairs: seq<(Assign, Assign)>, test: (Assign, Assign) -> bool)
    ensures CountWhere(pairs, test) == |Where(pairs, test)|
  {
    if pairs != [] {
      var n := |pairs| - 1;
      var init := pairs[..n];
      CountWhereMeaning(init, test);
      var extra: set<nat> := if test(pairs[n].0, pairs[n].1) then {n} else {};
      assert Where(pairs, test) == Where(init, test) + extra;
      assert n !in Where(init, test);
    }
  }

  /** `part_1` as written: how many pairs pass `one_contains_another`,
      that is, have their bounds ordered the same way. */
  function CountContainingAsWritten(pairs: seq<(Assign, Assign)>): (r: nat)
    ensures r == |Where(pairs, OneContainsAnotherAsWritten)|
  {
    CountWhereMeaning(pairs, OneContainsAnotherAsWritten);
    CountWhere(pairs, OneContainsAnotherAsWritten)
  }

  /** `part_1` with the corrected test: how many pairs have one assignment
      containing the other. */
  function CountContaining(pairs: seq<(Assign, Assign)>): (r: nat)
    ensures r == |Where(pairs, OneContainsAnother)|
  {
    CountWhereMeaning(pairs, OneContainsAnother);
    CountWhere(pairs, OneContainsAnother)
  }

  /** `part_2`: how many pairs overlap. */
  function CountOverlapping(pairs: seq<(Assign, Assign)>): (r: nat)
    ensures r == |Where(pairs, Overlap)|
  {
    CountWhereMeaning(pairs, Overlap);
    CountWhere(pairs, Overlap)
  }

  /** As written, part 1 counts the pair 1-2, 5-6, which part 2 does not,
      and misses the pair 2-8, 3-7, which the corrected count takes. */
  lemma AsWrittenCounts()
    ensures CountContainingAsWritten([(Assign(1, 2), Assign(5, 6))]) == 1
    ensures CountOverlapping([(Assign(1, 2), Assign(5, 6))]) == 0
    ensures CountContainingAsWritten([(Assign(2, 8), Assign(3, 7))]) == 0
    ensures CountContaining([(Assign(2, 8), Assign(3, 7))]) == 1
  {
    AsWrittenHoldsApart();
    AssignContainsIsNotContainment();
    var apart := [(Assign(1, 2), Assign(5, 6))];
    var inside := [(Assign(2, 8), Assign(3, 7))];
    assert apart[..0] == [] && inside[..0] == [];
  }

  /** With non-empty ranges, every pair that the corrected test accepts also
      overlaps, so the corrected part 1 never exceeds part 2. */
  lemma {:induction false} ContainingAtMostOverlapping(pairs: seq<(Assign, Assign)>)
    requires forall k :: 0 <= k < |pairs| ==> pairs[k].0.start <= pairs[k].0.end && pairs[k].1.start <= pairs[k].1.end
    ensures CountContaining(pairs) <= CountOverlapping(pairs)
  {
    if pairs != [] {
      var n := |pairs| - 1;
      OneContainsAnotherMeaning(pairs[n].0, pairs[n].1);
      ContainingAtMostOverlapping(pairs[..n]);
    }
  }
}
