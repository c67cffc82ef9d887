/** Distress signal (day 13): packets are numbers or nested lists, read by a
    character-at-a-time parser and ordered by a three-way comparison that
    wraps a number into a one-element list when it meets a list. */
module Day13 {
  import opened Common

  datatype Expr = Number(n: int) | List(items: seq<Expr>)

  /** The largest value `str::parse::<i64>` accepts. */
  const I64_MAX: int := 0x7FFF_FFFF_FFFF_FFFF

  // ---------------------------------------------------------------------------
  // Comparison

  function Size(e: Expr): nat
  {
    match e
    case Number(_) => 1
    case List(xs) => 1 + SeqSize(xs)
  }

  function SeqSize(xs: seq<Expr>): nat
  {
    if xs == [] then 0 else Size(xs[0]) + SeqSize(xs[1..])
  }

  lemma SeqSizeSuffix(xs: seq<Expr>, i: nat)
    requires i < |xs|
    ensures SeqSize(xs[i..]) == Size(xs[i]) + SeqSize(xs[i + 1..])
  {
    assert xs[i..][1..] == xs[i + 1..];
  }

  /** `compare`: -1, 0 or 1. Numbers compare by value; lists element by
      element from index 0; a number met by a list is wrapped as a
      one-element list. */
  function Compare(a: Expr, b: Expr): (r: int)
    ensures r in {-1, 0, 1}
    decreases Size(a) + Size(b), 0
  {
    match (a, b)
    case (Number(x), Number(y)) => if x < y then -1 else if x == y then 0 else 1
    case (List(xs), List(ys)) => CompareLists(xs, ys, 0)
    case (Number(x), List(ys)) => SeqSizeOne(Number(x)); CompareLists([Number(x)], ys, 0)
    case (List(xs), Number(y)) => SeqSizeOne(Number(y)); CompareLists(xs, [Number(y)], 0)
  }

  lemma SeqSizeOne(e: Expr)
    ensures SeqSize([e]) == Size(e) && [e][0..] == [e]
  {
    assert [e][1..] == [];
  }

  /** The loop over list positions from `i` on: the shorter list is smaller,
      and the first non-zero element comparison decides. */
  function CompareLists(xs: seq<Expr>, ys: seq<Expr>, i: nat): (r: int)
    requires i <= |xs| || i <= |ys|
    ensures r in {-1, 0, 1}
    decreases SeqSize(if i <= |xs| then xs[i..] else []) + SeqSize(if i <= |ys| then ys[i..] else []), 1
  {
    if i >= |xs| && i >= |ys| then 0
    else if i >= |xs| then -1
    else if i >= |ys| then 1
    else
      SeqSizeSuffix(xs, i);
      SeqSizeSuffix(ys, i);
      var res := Compare(xs[i], ys[i]);
      if res == 0 then CompareLists(xs, ys, i + 1) else res
  }

  /** A number meeting a list is compared as the list holding just that number,
      on either side. */
  lemma NumberAgainstList(x: int, ys: seq<Expr>)
    ensures Compare(Number(x), List(ys)) == Compare(List([Number(x)]), List(ys))
    ensures Compare(List(ys), Number(x)) == Compare(List(ys), List([Number(x)]))
  {
  }

  /** Every packet equals itself. */
  lemma {:induction false} CompareReflexive(a: Expr)
    ensures Compare(a, a) == 0
    decreases Size(a), 0
  {
    match a
    case Number(_) =>
    case List(xs) => CompareListsReflexive(xs, 0);
  }

  lemma {:induction false} CompareListsReflexive(xs: seq<Expr>, i: nat)
    requires i <= |xs|
    ensures CompareLists(xs, xs, i) == 0
    decreases SeqSize(xs[i..]), 1
  {
    if i < |xs| {
      SeqSizeSuffix(xs, i);
      CompareReflexive(xs[i]);
      CompareListsReflexive(xs, i + 1);
    }
  }

  /** Swapping the operands negates the result. */
  lemma {:induction false} CompareAntisymmetric(a: Expr, b: Expr)
    ensures Compare(a, b) == -Compare(b, a)
    decreases Size(a) + Size(b), 0
  {
    match (a, b)
    case (Number(x), Number(y)) =>
    case (List(xs), List(ys)) => CompareListsAntisymmetric(xs, ys, 0);
    case (Number(x), List(ys)) =>
      SeqSizeOne(Number(x));
      CompareListsAntisymmetric([Number(x)], ys, 0);
    case (List(xs), Number(y)) =>
      SeqSizeOne(Number(y));
      CompareListsAntisymmetric(xs, [Number(y)], 0);
  }

  lemma {:induction false} CompareListsAntisymmetric(xs: seq<Expr>, ys: seq<Expr>, i: nat)
    requires i <= |xs| || i <= |ys|
    ensures CompareLists(xs, ys, i) == -CompareLists(ys, xs, i)
    decreases SeqSize(if i <= |xs| then xs[i..] else []) + SeqSize(if i <= |ys| then ys[i..] else []), 1
  {
    if i < |xs| && i < |ys| {
      SeqSizeSuffix(xs, i);
      SeqSizeSuffix(ys, i);
      CompareAntisymmetric(xs[i], ys[i]);
      CompareListsAntisymmetric(xs, ys, i + 1);
    }
  }

  /** Lists compare lexicographically: when the first `k` elements compare
      equal, the result is decided by position `k` (or by length when one list
      ends there). */
  lemma {:induction false} CompareListsLexicographic(xs: seq<Expr>, ys: seq<Expr>, i: nat, k: nat)
    requires i <= k <= |xs| && k <= |ys|
    requires forall j :: i <= j < k ==> Compare(xs[j], ys[j]) == 0
    ensures CompareLists(xs, ys, i) == CompareLists(xs, ys, k)
    decreases k - i
  {
    if i < k {
      CompareListsLexicographic(xs, ys, i + 1, k);
    }
  }

  /** A proper prefix is smaller, and equal lists compare 0. */
  lemma PrefixSmaller(xs: seq<Expr>, ys: seq<Expr>)
    requires |xs| < |ys| && xs == ys[..|xs|]
    ensures Compare(List(xs), List(ys)) == -1
  {
    forall j | 0 <= j < |xs|
      ensures Compare(xs[j], ys[j]) == 0
    {
      CompareReflexive(xs[j]);
    }
    CompareListsLexicographic(xs, ys, 0, |xs|);
  }

  // ---------------------------------------------------------------------------
  // Parsing: what the parser reads from the rest of a line

  /** The number of digits at the start of `s`. */
  function DigitRun(s: string): (q: nat)
    ensures q <= |s|
    ensures forall k :: 0 <= k < q ==> IsDigit(s[k])
    ensures q < |s| ==> !IsDigit(s[q])
  {
    if s != [] && IsDigit(s[0]) then 1 + DigitRun(s[1..]) else 0
  }

  lemma {:induction false} DigitRunIs(s: string, q: nat)
    requires q <= |s|
    requires forall k :: 0 <= k < q ==> IsDigit(s[k])
    requires q < |s| ==> !IsDigit(s[q])
    ensures DigitRun(s) == q
  {
    if q > 0 {
      DigitRunIs(s[1..], q - 1);
    }
  }

  /** `parse_number`: digits are collected while the current character is a
      digit. Running off the end of the line, an empty run and a value beyond
      the i64 range are panics. The result holds the value and the rest of the
      line, which starts at the character that stopped the number. */
  function NumberOf(s: string): (r: Option<(int, string)>)
    ensures r.Some? ==> 0 <= r.value.0 <= I64_MAX
    ensures r.Some? ==> r.value.1 != [] && !IsDigit(r.value.1[0]) && |r.value.1| < |s|
  {
    var q := DigitRun(s);
    if q == |s| || q == 0 then None
    else
      var v := DigitsValue(s[..q]);
      if v > I64_MAX then None else Some((v, s[q..]))
  }

  /** `parse_expr`: a list when the current character is '[', a number otherwise. */
  function ExprOf(s: string): (r: Option<(Expr, string)>)
    ensures r.Some? ==> |r.value.1| < |s|
    decreases |s|, 1
  {
    if s == [] then None
    else if s[0] == '[' then
      match ItemsOf(s[1..], [])
      case Some((xs, t)) => Some((List(xs), t))
      case None => None
    else
      match NumberOf(s)
      case Some((v, t)) => Some((Number(v), t))
      case None => None
  }

  /** The loop of `parse_list` after the '[': items until ']', each optionally
      followed by one ','. */
  function ItemsOf(s: string, acc: seq<Expr>): (r: Option<(seq<Expr>, string)>)
    ensures r.Some? ==> |r.value.1| < |s|
    decreases |s|, 2
  {
    if s == [] then None
    else if s[0] == ']' then Some((acc, s[1..]))
    else
      match ExprOf(s)
      case None => None
      case Some((e, t)) =>
        if t == [] then None
        else ItemsOf(if t[0] == ',' then t[1..] else t, acc + [e])
  }

  /** `Parser::parse` as written: after the expression the parser holds one
      character of lookahead, and only the character after that must be
      missing. */
  function ParseLine(line: string): Option<Expr>
  {
    match ExprOf(line)
    case Some((e, t)) => if |t| <= 1 then Some(e) else None
    case None => None
  }

  /** The parse that consumes the whole line. */
  function ParseLineStrict(line: string): Option<Expr>
  {
    match ExprOf(line)
    case Some((e, t)) => if t == [] then Some(e) else None
    case None => None
  }

  // ---------------------------------------------------------------------------
  // Printing, and reading a printed packet back

  /** Numbers a packet may hold: what the number parser can produce. */
  predicate WellFormed(e: Expr)
  {
    match e
    case Number(n) => 0 <= n <= I64_MAX
    case List(xs) => forall k :: 0 <= k < |xs| ==> WellFormed(xs[k])
  }

  function Show(e: Expr): string
    requires WellFormed(e)
    decreases e
  {
    match e
    case Number(n) => ShowNat(n)
    case List(xs) => "[" + ShowItems(xs) + "]"
  }

  function ShowItems(xs: seq<Expr>): string
    requires forall k :: 0 <= k < |xs| ==> WellFormed(xs[k])
    decreases xs
  {
    if xs == [] then ""
    else if |xs| == 1 then Show(xs[0])
    else Show(xs[0]) + "," + ShowItems(xs[1..])
  }

  /** A printed packet starts with '[' or a digit. */
  lemma ShowStart(e: Expr)
    requires WellFormed(e)
    ensures Show(e) != [] && (Show(e)[0] == '[' || IsDigit(Show(e)[0]))
  {
  }

  /** A printed packet is read back exactly, provided a number is followed by
      a character that is not a digit (the number parser needs a character
      to stop at). */
  lemma {:induction false} ExprOfShow(e: Expr, t: string)
    requires WellFormed(e)
    requires e.Number? ==> t != [] && !IsDigit(t[0])
    ensures ExprOf(Show(e) + t) == Some((e, t))
    decreases e, 1
  {
    var s := Show(e) + t;
    match e
    case Number(n) =>
      var q := |ShowNat(n)|;
      assert s[..q] == ShowNat(n);
      assert s[q..] == t;
      DigitRunIs(s, q);
      DigitsValueOfShow(n);
    case List(xs) =>
      var inner := ShowItems(xs) + "]" + t;
      assert s == "[" + inner;
      assert s[1..] == inner;
      ItemsOfShow(xs, [], t);
      assert [] + xs == xs;
  }

  lemma {:induction false} ItemsOfShow(xs: seq<Expr>, acc: seq<Expr>, t: string)
    requires forall k :: 0 <= k < |xs| ==> WellFormed(xs[k])
    ensures ItemsOf(ShowItems(xs) + "]" + t, acc) == Some((acc + xs, t))
    decreases xs, 0
  {
    var s := ShowItems(xs) + "]" + t;
    if xs == [] {
      assert s == "]" + t;
      assert s[1..] == t;
      assert acc + xs == acc;
    } else {
      var x := xs[0];
      ShowStart(x);
      if |xs| == 1 {
        assert s == Show(x) + ("]" + t);
        LastItemOfShow(x, acc, t);
        assert acc + [x] == acc + xs;
      } else {
        var after := "," + (ShowItems(xs[1..]) + "]" + t);
        assert s == Show(x) + after;
        ExprOfShow(x, after);
        ItemStep(s, acc, x, after);
        assert after[1..] == ShowItems(xs[1..]) + "]" + t;
        ItemsOfShow(xs[1..], acc + [x], t);
        assert acc + [x] + xs[1..] == acc + xs;
      }
    }
  }

  /** The last item of a printed list is read, and then its closing ']'. */
  lemma LastItemOfShow(x: Expr, acc: seq<Expr>, t: string)
    requires WellFormed(x)
    ensures ItemsOf(Show(x) + ("]" + t), acc) == Some((acc + [x], t))
    decreases x, 2
  {
    var after := "]" + t;
    ShowStart(x);
    ExprOfShow(x, after);
    ItemStep(Show(x) + after, acc, x, after);
    assert after[1..] == t;
  }

  /** One item of the list loop: the item is read, then one ',' is skipped. */
  lemma ItemStep(s: string, acc: seq<Expr>, x: Expr, after: string)
    requires s != [] && s[0] != ']'
    requires ExprOf(s) == Some((x, after)) && after != []
    ensures ItemsOf(s, acc) == ItemsOf(if after[0] == ',' then after[1..] else after, acc + [x])
  {
  }

  /** The corrected parse reads every printed list packet back, and rejects
      it once anything follows. */
  lemma ParseStrictShow(e: Expr, tail: string)
    requires WellFormed(e) && e.List?
    ensures ParseLineStrict(Show(e)) == Some(e)
    ensures tail != [] ==> ParseLineStrict(Show(e) + tail) == None
  {
    ExprOfShow(e, []);
    assert Show(e) + [] == Show(e);
    ExprOfShow(e, tail);
  }

  /** As written, `Parser::parse` accepts one arbitrary character after a
      packet: "[1]x" reads as [1]. */
  lemma ParseAcceptsTrailingChar(e: Expr, c: char)
    requires WellFormed(e) && e.List?
    ensures ParseLine(Show(e) + [c]) == Some(e)
    ensures ParseLineStrict(Show(e) + [c]) == None
  {
    ExprOfShow(e, [c]);
  }

  lemma TrailingCharExample()
    ensures ParseLine("[1]x") == Some(List([Number(1)]))
    ensures ParseLineStrict("[1]x") == None
  {
    var e := List([Number(1)]);
    assert Show(e) == "[1]";
    assert Show(e) + ['x'] == "[1]x";
    ParseAcceptsTrailingChar(e, 'x');
  }

  // ---------------------------------------------------------------------------
  // The parser object

  class Parser {
    const line: string
    /** Index of the current character; `line[pos]` when `pos < |line|`, and
        the end of the line (`current_char` is None) otherwise. */
    var pos: nat

    constructor (line: string)
      ensures this.line == line && pos == 0
    {
      this.line := line;
      pos := 0;
    }

    /** `parse_number`. */
    method ParseNumber() returns (r: Option<int>)
      requires pos <= |line|
      modifies this
      ensures pos <= |line|
      ensures NumberOf(line[old(pos)..]) == if r.Some? then Some((r.value, line[pos..])) else None
    {
      var numStr: string := [];
      ghost var start := pos;
      ghost var s := line[start..];
      while pos < |line| && IsDigit(line[pos])
        invariant start <= pos <= |line|
        invariant numStr == line[start..pos]
        invariant forall k :: start <= k < pos ==> IsDigit(line[k])
        decreases |line| - pos
      {
        numStr := numStr + [line[pos]];
        pos := pos + 1;
      }
      ghost var n := pos - start;
      DigitRunIs(s, n);
      if pos == |line| {
        return None;
      }
      assert s[..n] == numStr;
      assert s[n..] == line[pos..];
      var v := ParseNat(numStr);
      if v.None? || v.value > I64_MAX {
        return None;
      }
      return Some(v.value);
    }

    /** `parse_expr`. */
    method ParseExpr() returns (r: Option<Expr>)
      requires pos <= |line|
      modifies this
      ensures pos <= |line|
      ensures ExprOf(line[old(pos)..]) == if r.Some? then Some((r.value, line[pos..])) else None
      decreases |line| - pos, 1
    {
      if pos == |line| {
        return None;
      }
      if line[pos] == '[' {
        assert line[pos..][1..] == line[pos + 1..];
        var xs := ParseList();
        if xs.None? {
          return None;
        }
        return Some(List(xs.value));
      }
      var n := ParseNumber();
      if n.None? {
        return None;
      }
      return Some(Number(n.value));
    }

    /** `parse_list`: skip '[', read items until ']', skip ']'. */
    method ParseList() returns (r: Option<seq<Expr>>)
      requires pos < |line| && line[pos] == '['
      modifies this
      ensures pos <= |line|
      ensures ItemsOf(line[old(pos) + 1..], []) == if r.Some? then Some((r.value, line[pos..])) else None
      decreases |line| - pos, 0
    {
      var res: seq<Expr> := [];
      pos := pos + 1;
      while true
        invariant old(pos) < pos <= |line|
        invariant ItemsOf(line[old(pos) + 1..], []) == ItemsOf(line[pos..], res)
        decreases |line| - pos
      {
        if pos == |line| {
          return None;
        }
        if line[pos] == ']' {
          break;
        }
        var ok, e := ParseItem(res);
        if !ok {
          return None;
        }
        res := res + [e];
      }
      assert line[pos..][1..] == line[pos + 1..];
      pos := pos + 1;
      return Some(res);
    }

    /** One pass of the loop of `parse_list`: an item, then one ',' if
        there is one. */
    method ParseItem(ghost res: seq<Expr>) returns (ok: bool, e: Expr)
      requires pos < |line| && line[pos] != ']'
      modifies this
      ensures pos <= |line|
      ensures ok ==> old(pos) < pos && ItemsOf(line[old(pos)..], res) == ItemsOf(line[pos..], res + [e])
      ensures !ok ==> ItemsOf(line[old(pos)..], res) == None
      decreases |line| - pos, 2
    {
      ghost var s := line[pos..];
      var x := ParseExpr();
      if x.None? || pos == |line| {
        return false, Number(0);
      }
      e := x.value;
      ghost var after := line[pos..];
      ItemStep(s, res, e, after);
      if line[pos] == ',' {
        assert after[1..] == line[pos + 1..];
        pos := pos + 1;
      }
      return true, e;
    }
  }

  /** `Parser::parse`: one expression, then the check that the iterator behind
      the lookahead character is exhausted. */
  method Parse(line: string) returns (r: Option<Expr>)
    ensures r == ParseLine(line)
  {
    var parser := new Parser(line);
    r := parser.ParseExpr();
    assert line[0..] == line;
    if r.Some? && parser.pos + 1 < |line| {
      r := None;
    }
  }

  // ---------------------------------------------------------------------------
  // Ordering packets

  /** Each packet compares at most equal to the next one. */
  predicate AdjacentSorted(v: seq<Expr>)
  {
    forall k :: 0 <= k < |v| - 1 ==> Compare(v[k], v[k + 1]) <= 0
  }

  /** `insert_sorted`: `e` goes before the first element it is strictly less
      than, or at the end. Every element before it is at most `e`, and a
      sequence sorted pair by pair stays so. */
  method InsertSorted(v: seq<Expr>, e: Expr) returns (v': seq<Expr>, index: nat)
    ensures index <= |v| && v' == v[..index] + [e] + v[index..]
    ensures forall k :: 0 <= k < index ==> Compare(e, v[k]) != -1 && Compare(v[k], e) <= 0
    ensures index < |v| ==> Compare(e, v[index]) == -1
    ensures multiset(v') == multiset(v) + multiset{e}
    ensures AdjacentSorted(v) ==> AdjacentSorted(v')
  {
    index := 0;
    while index < |v| && Compare(e, v[index]) != -1
      invariant 0 <= index <= |v|
      invariant forall k :: 0 <= k < index ==> Compare(e, v[k]) != -1
    {
      index := index + 1;
    }
    v' := v[..index] + [e] + v[index..];
    assert v == v[..index] + v[index..];
    forall k | 0 <= k < index
      ensures Compare(v[k], e) <= 0
    {
      CompareAntisymmetric(v[k], e);
    }
    if AdjacentSorted(v) {
      InsertKeepsSorted(v, e, index);
    }
  }

  /** Putting `e` after the elements at most it and before one above it
      keeps a sequence sorted pair by pair. */
  lemma InsertKeepsSorted(v: seq<Expr>, e: Expr, index: nat)
    requires AdjacentSorted(v) && index <= |v|
    requires forall k :: 0 <= k < index ==> Compare(v[k], e) <= 0
    requires index < |v| ==> Compare(e, v[index]) == -1
    ensures AdjacentSorted(v[..index] + [e] + v[index..])
  {
    var v' := v[..index] + [e] + v[index..];
    forall k | 0 <= k < |v'| - 1
      ensures Compare(v'[k], v'[k + 1]) <= 0
    {
      if k + 1 < index {
        assert v'[k] == v[k] && v'[k + 1] == v[k + 1];
      } else if k + 1 == index {
        assert v'[k] == v[k] && v'[k + 1] == e;
      } else if k == index {
        assert v'[k] == e && v'[k + 1] == v[index];
      } else {
        assert v'[k] == v[k - 1] && v'[k + 1] == v[k];
      }
    }
  }

  /** `find_packet`: the 1-based position of the first element comparing equal. */
  method FindPacket(v: seq<Expr>, e: Expr) returns (r: Option<nat>)
    ensures r.Some? ==> 1 <= r.value <= |v| && Compare(e, v[r.value - 1]) == 0
    ensures r.Some? ==> forall k :: 0 <= k < r.value - 1 ==> Compare(e, v[k]) != 0
    ensures r.None? ==> forall k :: 0 <= k < |v| ==> Compare(e, v[k]) != 0
  {
    var i := 0;
    while i < |v|
      invariant 0 <= i <= |v|
      invariant forall k :: 0 <= k < i ==> Compare(e, v[k]) != 0
    {
      if Compare(e, v[i]) == 0 {
        return Some(i + 1);
      }
      i := i + 1;
    }
    return None;
  }

  // ---------------------------------------------------------------------------
  // The two answers

  /** The sum of the 1-based indices of the pairs whose left packet compares
      `c` to their right one. */
  function IndexSum(pairs: seq<(Expr, Expr)>, c: int): nat
  {
    if pairs == [] then 0
    else
      var last := pairs[|pairs| - 1];
      IndexSum(pairs[..|pairs| - 1], c) + if Compare(last.0, last.1) == c then |pairs| else 0
  }

  /** `part_1`: the indices of the pairs in the right order, summed. */
  function InOrderSum(pairs: seq<(Expr, Expr)>): nat
  {
    IndexSum(pairs, -1)
  }

  /** Every index is counted once, as in order, equal or out of order: the
      three sums make 1 + 2 + ... + n. */
  lemma {:induction false} IndexSumsPartition(pairs: seq<(Expr, Expr)>)
    ensures 2 * (IndexSum(pairs, -1) + IndexSum(pairs, 0) + IndexSum(pairs, 1)) == |pairs| * (|pairs| + 1)
  {
    if pairs != [] {
      var n := |pairs|;
      var init := pairs[..n - 1];
      IndexSumsPartition(init);
      assert 2 * n + (n - 1) * n == n * (n + 1);
    }
  }

  /** Each pair with its packets swapped. */
  function Swapped(pairs: seq<(Expr, Expr)>): (r: seq<(Expr, Expr)>)
    ensures |r| == |pairs| && forall i :: 0 <= i < |pairs| ==> r[i] == (pairs[i].1, pairs[i].0)
  {
    seq(|pairs|, i requires 0 <= i < |pairs| => (pairs[i].1, pairs[i].0))
  }

  /** A pair is out of order exactly when it is in order once swapped. */
  lemma {:induction false} SwappedInOrderSum(pairs: seq<(Expr, Expr)>)
    ensures InOrderSum(Swapped(pairs)) == IndexSum(pairs, 1)
  {
    if pairs != [] {
      var n := |pairs|;
      var init := pairs[..n - 1];
      SwappedInOrderSum(init);
      assert Swapped(pairs)[..n - 1] == Swapped(init);
      CompareAntisymmetric(pairs[n - 1].0, pairs[n - 1].1);
    }
  }

  /** The divider packets [[2]] and [[6]] of `part_2`. */
  const Divider1 := List([List([Number(2)])])
  const Divider2 := List([List([Number(6)])])

  /** All packets of the pairs, left before right, pair by pair. */
  function Packets(pairs: seq<(Expr, Expr)>): (r: seq<Expr>)
    ensures |r| == 2 * |pairs|
  {
    if pairs == [] then []
    else Packets(pairs[..|pairs| - 1]) + [pairs[|pairs| - 1].0, pairs[|pairs| - 1].1]
  }

  lemma PacketsSnoc(pairs: seq<(Expr, Expr)>, i: nat, next: nat)
    requires i < |pairs| && next == i + 1
    ensures Packets(pairs[..next]) == Packets(pairs[..i]) + [pairs[i].0, pairs[i].1]
  {
    assert pairs[..next][..i] == pairs[..i];
  }

  /** `i` is the first position of `v` comparing equal to `e`. */
  predicate FirstEqual(v: seq<Expr>, e: Expr, i: nat)
  {
    i < |v| && Compare(e, v[i]) == 0 && forall k :: 0 <= k < i ==> Compare(e, v[k]) != 0
  }

  /** The two insertions of one pair of `part_2`, left packet first. */
  method InsertPair(v: seq<Expr>, pair: (Expr, Expr)) returns (v': seq<Expr>)
    ensures multiset(v') == multiset(v + [pair.0, pair.1])
    ensures AdjacentSorted(v) ==> AdjacentSorted(v')
  {
    var at: nat;
    v', at := InsertSorted(v, pair.0);
    v', at := InsertSorted(v', pair.1);
    assert multiset(v + [pair.0, pair.1]) == multiset(v) + multiset{pair.0} + multiset{pair.1};
  }

  /** Inserting the packets of pair `i` extends the packets inserted. */
  lemma PacketsGrow(pairs: seq<(Expr, Expr)>, dividers: (Expr, Expr), i: nat, next: nat)
    requires i < |pairs| && next == i + 1
    ensures [dividers.0, dividers.1] + Packets(pairs[..next])
      == ([dividers.0, dividers.1] + Packets(pairs[..i])) + [pairs[i].0, pairs[i].1]
  {
    PacketsSnoc(pairs, i, next);
  }

  lemma MultisetAppend<T>(v: seq<T>, v': seq<T>, done: seq<T>, added: seq<T>)
    requires multiset(v) == multiset(done) && multiset(v') == multiset(v + added)
    ensures multiset(v') == multiset(done + added)
  {
    calc {
      multiset(v');
      multiset(v) + multiset(added);
      multiset(done) + multiset(added);
    }
  }

  /** The insertions of `part_2`: both dividers, then every packet with
      `insert_sorted`. The sequence built holds exactly the dividers and the
      packets, each pair of neighbours in order. */
  method SortPackets(pairs: seq<(Expr, Expr)>, dividers: (Expr, Expr)) returns (v: seq<Expr>)
    ensures multiset(v) == multiset([dividers.0, dividers.1] + Packets(pairs))
    ensures AdjacentSorted(v)
  {
    v := InsertPair([], dividers);
    assert [] + [dividers.0, dividers.1] == [dividers.0, dividers.1] + Packets(pairs[..0]);
    for i := 0 to |pairs|
      invariant AdjacentSorted(v)
      invariant multiset(v) == multiset([dividers.0, dividers.1] + Packets(pairs[..i]))
    {
      ghost var before := v;
      v := InsertPair(v, pairs[i]);
      PacketsGrow(pairs, dividers, i, i + 1);
      MultisetAppend(before, v, [dividers.0, dividers.1] + Packets(pairs[..i]), [pairs[i].0, pairs[i].1]);
    }
    assert pairs[..|pairs|] == pairs;
  }

  /** The product of the 1-based positions at which the two dividers are
      first found. Both are always found, so the source's `expect` never
      fails. */
  method DividerProduct(v: seq<Expr>, d1: Expr, d2: Expr) returns (key: nat)
    requires d1 in v && d2 in v
    ensures exists i: nat, j: nat :: FirstEqual(v, d1, i) && FirstEqual(v, d2, j) && key == (i + 1) * (j + 1)
  {
    CompareReflexive(d1);
    CompareReflexive(d2);
    var p1 := FindPacket(v, d1);
    var p2 := FindPacket(v, d2);
    assert p1.Some? && p2.Some?;
    key := p1.value * p2.value;
    assert FirstEqual(v, d1, p1.value - 1) && FirstEqual(v, d2, p2.value - 1);
  }

  /** `part_2`: sort the dividers [[2]] and [[6]] in with the packets, and
      multiply the positions at which the dividers are found. */
  method DecoderKey(pairs: seq<(Expr, Expr)>) returns (key: nat, v: seq<Expr>)
    ensures multiset(v) == multiset([Divider1, Divider2] + Packets(pairs))
    ensures AdjacentSorted(v)
    ensures exists i: nat, j: nat :: FirstEqual(v, Divider1, i) && FirstEqual(v, Divider2, j) && key == (i + 1) * (j + 1)
  {
    v := SortPackets(pairs, (Divider1, Divider2));
    assert Divider1 in multiset(v) && Divider2 in multiset(v);
    key := DividerProduct(v, Divider1, Divider2);
  }
}
