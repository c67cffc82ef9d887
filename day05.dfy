/** Crate stacks (day 5): a drawing of stacks is read into one sequence of
    crates per stack, bottom first, and steps move crates from the top of one
    stack to the top of another, one at a time (part one) or as a block
    (part two). */
module Day05 {
  import opened Common
  import opened Util

  // ---------------------------------------------------------------------------
  // Reading the drawing

  /** The characters at positions 1, 5, 9, ... of a drawing line: the crate
      letters (or spaces) of each column. */
  function RowOf(line: string): (r: seq<char>)
    ensures |r| == (|line| + 2) / 4
    ensures forall k :: 0 <= k < |r| ==> 4 * k + 1 < |line| && r[k] == line[4 * k + 1]
  {
    if |line| < 2 then []
    else if |line| <= 4 then [line[1]]
    else [line[1]] + RowOf(line[4..])
  }

  /** The drawing rows bottom first, without the stack-number line. */
  function Rows(lines: seq<string>): (rows: seq<seq<char>>)
    ensures |rows| == if |lines| == 0 then 0 else |lines| - 1
    ensures forall r :: 0 <= r < |rows| ==> rows[r] == RowOf(lines[|lines| - 2 - r])
  {
    if |lines| <= 1 then []
    else seq(|lines| - 1, r requires 0 <= r < |lines| - 1 => RowOf(lines[|lines| - 2 - r]))
  }

  /** Stack `i`, or an empty stack beyond the last one. */
  function Get(stacks: seq<seq<char>>, i: nat): seq<char>
  {
    if i < |stacks| then stacks[i] else []
  }

  /** The crate a row holds in column `i`, if any. */
  function Cell(row: seq<char>, i: nat): seq<char>
  {
    if i < |row| && row[i] != ' ' then [row[i]] else []
  }

  /** The crates of column `i`, bottom first. */
  function Column(rows: seq<seq<char>>, i: nat): seq<char>
  {
    if rows == [] then [] else Cell(rows[0], i) + Column(rows[1..], i)
  }

  /** Putting the crates of one row, from column `j` on, on the stacks. A
      crate in the column right after the last stack opens a new stack; one
      further to the right is the source's out-of-bounds panic (None). */
  function AddCells(stacks: seq<seq<char>>, row: seq<char>, j: nat): Option<seq<seq<char>>>
    decreases |row| - j
  {
    if j >= |row| then Some(stacks)
    else if row[j] == ' ' then AddCells(stacks, row, j + 1)
    else
      var stacks' := if |stacks| == j then stacks + [[]] else stacks;
      if j < |stacks'| then AddCells(stacks'[j := stacks'[j] + [row[j]]], row, j + 1)
      else None
  }

  function AddRows(stacks: seq<seq<char>>, rows: seq<seq<char>>): Option<seq<seq<char>>>
    decreases |rows|
  {
    if rows == [] then Some(stacks)
    else
      match AddCells(stacks, rows[0], 0)
      case None => None
      case Some(stacks') => AddRows(stacks', rows[1..])
  }

  lemma {:induction false} AddCellsFacts(stacks: seq<seq<char>>, row: seq<char>, j: nat)
    requires AddCells(stacks, row, j).Some?
    requires forall i :: 0 <= i < |stacks| ==> stacks[i] != []
    ensures var st := AddCells(stacks, row, j).value;
      && (forall i :: 0 <= i < |st| ==> st[i] != [])
      && forall i: nat :: Get(st, i) == Get(stacks, i) + (if i >= j then Cell(row, i) else [])
    decreases |row| - j
  {
    if j < |row| {
      if row[j] == ' ' {
        AddCellsFacts(stacks, row, j + 1);
      } else {
        var stacks' := if |stacks| == j then stacks + [[]] else stacks;
        var next := stacks'[j := stacks'[j] + [row[j]]];
        PutCrate(stacks, j, row[j]);
        AddCellsFacts(next, row, j + 1);
      }
    }
  }

  /** A crate put on stack `j` (a new one right after the last) lands on
      that stack and nowhere else. */
  lemma PutCrate(stacks: seq<seq<char>>, j: nat, c: char)
    requires j <= |stacks|
    requires forall i :: 0 <= i < |stacks| ==> stacks[i] != []
    ensures var stacks' := if |stacks| == j then stacks + [[]] else stacks;
      var next := stacks'[j := stacks'[j] + [c]];
      && (forall i :: 0 <= i < |next| ==> next[i] != [])
      && forall i: nat :: Get(next, i) == Get(stacks, i) + (if i == j then [c] else [])
  {
  }

  lemma {:induction false} AddRowsFacts(stacks: seq<seq<char>>, rows: seq<seq<char>>)
    requires AddRows(stacks, rows).Some?
    requires forall i :: 0 <= i < |stacks| ==> stacks[i] != []
    ensures var st := AddRows(stacks, rows).value;
      && (forall i :: 0 <= i < |st| ==> st[i] != [])
      && forall i: nat :: Get(st, i) == Get(stacks, i) + Column(rows, i)
    decreases |rows|
  {
    if rows != [] {
      var stacks' := AddCells(stacks, rows[0], 0).value;
      AddCellsFacts(stacks, rows[0], 0);
      AddRowsFacts(stacks', rows[1..]);
    }
  }

  /** A drawing that reads without a panic gives, for every column, its crates
      bottom to top, and no stack is empty; a crate in any column has a stack. */
  lemma ParsedColumns(rows: seq<seq<char>>)
    requires AddRows([], rows).Some?
    ensures var st := AddRows([], rows).value;
      && (forall i :: 0 <= i < |st| ==> st[i] != [] && st[i] == Column(rows, i))
      && (forall i: nat :: i >= |st| ==> Column(rows, i) == [])
  {
    AddRowsFacts([], rows);
    var st := AddRows([], rows).value;
    forall i: nat
      ensures Get(st, i) == Column(rows, i)
    {
      assert Get([], i) == [];
    }
  }

  /** One row of `State::parse`: each crate pushed on the stack of its column. */
  method PushRow(stacks: seq<seq<char>>, row: seq<char>) returns (r: Option<seq<seq<char>>>)
    ensures r == AddCells(stacks, row, 0)
  {
    var st := stacks;
    for i := 0 to |row|
      invariant AddCells(st, row, i) == AddCells(stacks, row, 0)
    {
      var c := row[i];
      if c != ' ' {
        if |st| == i {
          st := st + [[]];
        }
        if i >= |st| {
          return None;
        }
        st := st[i := st[i] + [c]];
      }
    }
    return Some(st);
  }

  /** `State::parse`: the rows bottom first, each crate pushed on its stack. */
  method ParseStacks(lines: seq<string>) returns (r: Option<seq<seq<char>>>)
    ensures r == AddRows([], Rows(lines))
  {
    var rows := Rows(lines);
    var stacks: seq<seq<char>> := [];
    for k := 0 to |rows|
      invariant AddRows(stacks, rows[k..]) == AddRows([], rows)
    {
      assert rows[k..][1..] == rows[k + 1..];
      var next := PushRow(stacks, rows[k]);
      if next.None? {
        return None;
      }
      stacks := next.value;
    }
    assert rows[|rows|..] == [];
    return Some(stacks);
  }

  // ---------------------------------------------------------------------------
  // Steps

  /** A step as read: `from` and `to` are the 1-based numbers minus one, so a
      stack number 0 gives -1, which the source turns into an index that is
      out of bounds. */
  datatype Step = Step(amount: int, from: int, to: int)

  /** `Step::parse`: "move A from F to T"; a missing token or a number that
      does not parse is a panic (None). */
  function ParseStep(line: string): (r: Option<Step>)
  {
    var tokens := Tokenize(line);
    if |tokens| < 6 then None
    else
      match (ParseInt(tokens[1]), ParseInt(tokens[3]), ParseInt(tokens[5]))
      case (Some(a), Some(f), Some(t)) => Some(Step(a, f - 1, t - 1))
      case _ => None
  }

  function ShowStep(step: Step): string
  {
    Unwords(["move", ShowInt(step.amount), "from", ShowInt(step.from + 1), "to", ShowInt(step.to + 1)])
  }

  lemma ShowNatWord(n: nat)
    ensures ShowNat(n) != [] && NoWhitespace(ShowNat(n))
  {
    var s := ShowNat(n);
    forall i | 0 <= i < |s|
      ensures !IsWhitespace(s[i])
    {
      assert IsDigit(s[i]);
    }
  }

  lemma ShowIntWord(i: int)
    ensures ShowInt(i) != [] && NoWhitespace(ShowInt(i))
  {
    if i < 0 {
      ShowNatWord(-i);
      assert ShowInt(i) == "-" + ShowNat(-i);
    } else {
      ShowNatWord(i);
    }
  }

  /** Reading a written step gives the step back, with the stack numbers
      turned into 0-based indices and back. */
  lemma ParseShowStep(step: Step)
    ensures ParseStep(ShowStep(step)) == Some(step)
  {
    var a, f1, t1 := step.amount, step.from + 1, step.to + 1;
    var words := ["move", ShowInt(a), "from", ShowInt(f1), "to", ShowInt(t1)];
    ShowIntWord(a);
    ShowIntWord(f1);
    ShowIntWord(t1);
    assert NoWhitespace("move") && NoWhitespace("from") && NoWhitespace("to");
    TokenizeUnwords(words);
    assert Tokenize(ShowStep(step)) == words;
    ParseShowInt(a);
    ParseShowInt(f1);
    ParseShowInt(t1);
  }

  function Count(amount: int): nat
  {
    if amount < 0 then 0 else amount
  }

  /** The top `n` crates of stack `f` taken off and `moved` (the same crates,
      rearranged) put on stack `t`. */
  function Transfer(stacks: seq<seq<char>>, f: nat, t: nat, n: nat, moved: seq<char>): seq<seq<char>>
    requires f < |stacks| && t < |stacks| && n <= |stacks[f]|
  {
    var rest := stacks[f := stacks[f][..|stacks[f]| - n]];
    rest[t := rest[t] + moved]
  }

  /** `apply_step_1`: crates move one at a time, so the block arrives upside
      down. Moving onto the same stack leaves it as it was. None for the
      source's panics: a stack index out of bounds, or too few crates. */
  function Step1(stacks: seq<seq<char>>, step: Step): (r: Option<seq<seq<char>>>)
  {
    var n := Count(step.amount);
    if n == 0 then Some(stacks)
    else if !(0 <= step.from < |stacks| && 0 <= step.to < |stacks|) then None
    else if step.from == step.to then (if stacks[step.from] == [] then None else Some(stacks))
    else if |stacks[step.from]| < n then None
    else
      var s := stacks[step.from];
      Some(Transfer(stacks, step.from, step.to, n, Reverse(s[|s| - n..])))
  }

  /** `apply_step_2`: the block keeps its order. */
  function Step2(stacks: seq<seq<char>>, step: Step): (r: Option<seq<seq<char>>>)
  {
    var n := Count(step.amount);
    if n == 0 then Some(stacks)
    else if !(0 <= step.from < |stacks| && 0 <= step.to < |stacks|) then None
    else if |stacks[step.from]| < n then None
    else
      var s := stacks[step.from];
      Some(Transfer(stacks, step.from, step.to, n, s[|s| - n..]))
  }

  function TotalCrates(stacks: seq<seq<char>>): nat
  {
    if stacks == [] then 0 else |stacks[0]| + TotalCrates(stacks[1..])
  }

  lemma {:induction false} TotalCratesUpdate(stacks: seq<seq<char>>, k: nat, s: seq<char>)
    requires k < |stacks|
    ensures TotalCrates(stacks[k := s]) + |stacks[k]| == TotalCrates(stacks) + |s|
  {
    if k > 0 {
      assert stacks[k := s][1..] == stacks[1..][k - 1 := s];
      TotalCratesUpdate(stacks[1..], k - 1, s);
    }
  }

  /** A transfer of `n` crates between two different stacks shortens one by
      `n`, lengthens the other by `n`, keeps every other stack and the number
      of crates. */
  lemma TransferFacts(stacks: seq<seq<char>>, f: nat, t: nat, n: nat, moved: seq<char>)
    requires f < |stacks| && t < |stacks| && n <= |stacks[f]| && |moved| == n
    ensures var r := Transfer(stacks, f, t, n, moved);
      && |r| == |stacks| && TotalCrates(r) == TotalCrates(stacks)
      && (f != t ==> |r[f]| == |stacks[f]| - n && |r[t]| == |stacks[t]| + n)
      && forall k :: 0 <= k < |stacks| && k != f && k != t ==> r[k] == stacks[k]
  {
    var rest := stacks[f := stacks[f][..|stacks[f]| - n]];
    TotalCratesUpdate(stacks, f, stacks[f][..|stacks[f]| - n]);
    TotalCratesUpdate(rest, t, rest[t] + moved);
  }

  /** Both kinds of step move the same crates between the same stacks; they
      differ only in the order of the moved block, and keep the crate count. */
  lemma StepsAgree(stacks: seq<seq<char>>, step: Step)
    requires Step2(stacks, step).Some? && step.from != step.to
    ensures Step1(stacks, step).Some?
    ensures var n := Count(step.amount);
      n > 0 ==>
        && Step1(stacks, step).value[step.from] == Step2(stacks, step).value[step.from]
        && Step2(stacks, step).value[step.to] == stacks[step.to] + stacks[step.from][|stacks[step.from]| - n..]
        && Step1(stacks, step).value[step.to] == stacks[step.to] + Reverse(stacks[step.from][|stacks[step.from]| - n..])
    ensures TotalCrates(Step1(stacks, step).value) == TotalCrates(stacks)
    ensures TotalCrates(Step2(stacks, step).value) == TotalCrates(stacks)
  {
    var n := Count(step.amount);
    if n > 0 {
      var s := stacks[step.from];
      var block := s[|s| - n..];
      assert Step2(stacks, step) == Some(Transfer(stacks, step.from, step.to, n, block));
      assert Step1(stacks, step) == Some(Transfer(stacks, step.from, step.to, n, Reverse(block)));
      TransferFacts(stacks, step.from, step.to, n, block);
      TransferFacts(stacks, step.from, step.to, n, Reverse(block));
    }
  }

  /** The top of each stack: a string with one crate per stack, or None (the
      source's panic) when a stack is empty. */
  function Tops(stacks: seq<seq<char>>): (r: Option<string>)
    ensures r.Some? <==> forall i :: 0 <= i < |stacks| ==> stacks[i] != []
    ensures r.Some? ==> |r.value| == |stacks|
    ensures r.Some? ==> forall i :: 0 <= i < |stacks| ==> r.value[i] == stacks[i][|stacks[i]| - 1]
  {
    if stacks == [] then Some([])
    else if stacks[0] == [] then None
    else
      match Tops(stacks[1..])
      case None => None
      case Some(rest) => Some([stacks[0][|stacks[0]| - 1]] + rest)
  }

  /** A freshly read drawing has a top crate on every stack. */
  lemma ParsedTops(rows: seq<seq<char>>)
    requires AddRows([], rows).Some?
    ensures Tops(AddRows([], rows).value).Some?
  {
    ParsedColumns(rows);
  }

  /** The stacks, updated in place by the steps. */
  class State {
    var stacks: seq<seq<char>>

    constructor(stacks: seq<seq<char>>)
      ensures this.stacks == stacks
    {
      this.stacks := stacks;
    }

    /** `apply_step_1`: pop from `from` and push onto `to`, `amount` times. */
    method ApplyStep1(step: Step) returns (ok: bool)
      modifies this
      ensures Step1(old(stacks), step) == if ok then Some(stacks) else None
    {
      var n := Count(step.amount);
      ghost var s0 := stacks;
      for i := 0 to n
        invariant i == 0 ==> stacks == s0
        invariant i > 0 ==> 0 <= step.from < |s0| && 0 <= step.to < |s0|
        invariant i > 0 && step.from != step.to ==> Moved(s0, step.from, step.to, i, stacks)
        invariant i > 0 && step.from == step.to ==> stacks == s0 && s0[step.from] != []
      {
        if !(0 <= step.from < |stacks|) || stacks[step.from] == [] {
          return false;
        }
        if 0 <= step.to < |stacks| && step.from != step.to {
          if i == 0 {
            MovedNone(s0, step.from, step.to);
          }
          MovedNext(s0, step.from, step.to, i, stacks);
        }
        var from := stacks[step.from];
        var item := from[|from| - 1];
        stacks := stacks[step.from := from[..|from| - 1]];
        if !(0 <= step.to < |stacks|) {
          return false;
        }
        stacks := stacks[step.to := stacks[step.to] + [item]];
        if step.from == step.to {
          assert from[..|from| - 1] + [item] == from;
        }
      }
      return true;
    }

    /** The second loop of `apply_step_2`: push the buffer onto stack `to`,
        last popped first. */
    method PushReversed(to: int, tmp: seq<char>)
      requires 0 <= to < |stacks|
      modifies this
      ensures stacks == old(stacks)[to := old(stacks)[to] + Reverse(tmp)]
    {
      var k := |tmp|;
      assert tmp[k..] == [];
      assert stacks[to] + [] == stacks[to];
      assert stacks[to := stacks[to] + []] == stacks;
      while k > 0
        invariant 0 <= k <= |tmp|
        invariant stacks == old(stacks)[to := old(stacks)[to] + Reverse(tmp[k..])]
      {
        k := k - 1;
        ReverseCons(tmp, k);
        assert old(stacks)[to] + Reverse(tmp[k + 1..]) + [tmp[k]] == old(stacks)[to] + Reverse(tmp[k..]);
        stacks := stacks[to := stacks[to] + [tmp[k]]];
      }
      assert tmp[0..] == tmp;
    }

    /** `apply_step_2`: pop `amount` crates into a buffer, then push them
        back in reverse pop order onto `to`. */
    method ApplyStep2(step: Step) returns (ok: bool)
      modifies this
      ensures Step2(old(stacks), step) == if ok then Some(stacks) else None
    {
      var n := Count(step.amount);
      ghost var s0 := stacks;
      var tmp: seq<char> := [];
      for i := 0 to n
        invariant |tmp| == i
        invariant i == 0 ==> stacks == s0 && tmp == []
        invariant i > 0 ==> Popped(s0, step.from, i, stacks, tmp)
      {
        if !(0 <= step.from < |stacks|) || stacks[step.from] == [] {
          return false;
        }
        if i == 0 {
          PoppedNone(s0, step.from);
        }
        PopNext(s0, step.from, i, stacks, tmp);
        var from := stacks[step.from];
        tmp := tmp + [from[|from| - 1]];
        stacks := stacks[step.from := from[..|from| - 1]];
      }
      if n > 0 && !(0 <= step.to < |stacks|) {
        return false;
      }
      if n > 0 {
        PoppedThenPushed(s0, step, stacks, tmp);
        PushReversed(step.to, tmp);
      }
      return true;
    }
  }

  /** Step two part way: the top `i` crates of stack `f` are off it and in
      the buffer, the last one popped at the end. */
  ghost predicate Popped(s0: seq<seq<char>>, f: int, i: nat, stacks: seq<seq<char>>, tmp: seq<char>)
  {
    && 0 <= f < |s0| && i <= |s0[f]|
    && stacks == s0[f := s0[f][..|s0[f]| - i]]
    && tmp == Reverse(s0[f][|s0[f]| - i..])
  }

  lemma PoppedNone(s0: seq<seq<char>>, f: int)
    requires 0 <= f < |s0|
    ensures Popped(s0, f, 0, s0, [])
  {
    assert s0[f][..|s0[f]| - 0] == s0[f];
    assert s0[f][|s0[f]| - 0..] == [];
  }

  /** One more pop keeps the buffer the reversed top of the stack. */
  lemma PopNext(s0: seq<seq<char>>, f: int, i: nat, stacks: seq<seq<char>>, tmp: seq<char>)
    requires Popped(s0, f, i, stacks, tmp) && stacks[f] != []
    ensures i < |s0[f]|
    ensures Popped(s0, f, i + 1, stacks[f := stacks[f][..|stacks[f]| - 1]], tmp + [stacks[f][|stacks[f]| - 1]])
  {
    var f0 := s0[f];
    var from := stacks[f];
    assert from == f0[..|f0| - i];
    PopStep(f0, i);
    assert from[..|from| - 1] == f0[..|f0| - (i + 1)];
  }

  /** After all `n` pops, pushing the buffer back in reverse gives step two. */
  lemma PoppedThenPushed(s0: seq<seq<char>>, step: Step, stacks: seq<seq<char>>, tmp: seq<char>)
    requires Count(step.amount) > 0 && Popped(s0, step.from, Count(step.amount), stacks, tmp)
    requires 0 <= step.to < |stacks|
    ensures Step2(s0, step) == Some(stacks[step.to := stacks[step.to] + Reverse(tmp)])
  {
    var n, f0 := Count(step.amount), s0[step.from];
    var block := f0[|f0| - n..];
    ReverseTwice(block);
    assert Reverse(tmp) == block;
    assert stacks == s0[step.from := f0[..|f0| - n]];
    assert Transfer(s0, step.from, step.to, n, block) == stacks[step.to := stacks[step.to] + block];
  }

  lemma ReverseCons<T>(s: seq<T>, k: nat)
    requires k < |s|
    ensures Reverse(s[k..]) == Reverse(s[k + 1..]) + [s[k]]
  {
    assert s[k..][1..] == s[k + 1..];
  }

  lemma ReverseTwice<T>(s: seq<T>)
    ensures Reverse(Reverse(s)) == s
  {
    assert forall i :: 0 <= i < |s| ==> Reverse(Reverse(s))[i] == s[i];
  }

  /** The stacks after the first `i` single-crate moves of step one. */
  function Moved1(s0: seq<seq<char>>, f: nat, t: nat, i: nat): seq<seq<char>>
    requires f < |s0| && t < |s0| && i <= |s0[f]|
  {
    Transfer(s0, f, t, i, Reverse(s0[f][|s0[f]| - i..]))
  }

  /** Step one part way, between two different stacks: `i` single-crate
      moves are done. */
  ghost predicate Moved(s0: seq<seq<char>>, f: int, t: int, i: nat, stacks: seq<seq<char>>)
  {
    && 0 <= f < |s0| && 0 <= t < |s0| && f != t && i <= |s0[f]|
    && stacks == Moved1(s0, f, t, i)
  }

  lemma MovedNone(s0: seq<seq<char>>, f: int, t: int)
    requires 0 <= f < |s0| && 0 <= t < |s0| && f != t
    ensures Moved(s0, f, t, 0, s0)
  {
    assert s0[f][..|s0[f]| - 0] == s0[f];
    assert s0[f][|s0[f]| - 0..] == [];
    assert s0[t] + Reverse([]) == s0[t];
  }

  /** Move `i + 1` takes the next crate of stack `f` and adds it to the
      reversed block on stack `t`. */
  lemma MovedNext(s0: seq<seq<char>>, f: int, t: int, i: nat, cur: seq<seq<char>>)
    requires Moved(s0, f, t, i, cur) && cur[f] != []
    ensures i < |s0[f]|
    ensures Moved(s0, f, t, i + 1, cur[f := cur[f][..|cur[f]| - 1]][t := cur[t] + [cur[f][|cur[f]| - 1]]])
  {
    var s := s0[f];
    var L := |s|;
    var R := Reverse(s[L - i..]);
    var c := s[L - i - 1];
    PopStep(s, i);
    assert cur[f] == s[..L - i] && cur[t] == s0[t] + R;
    assert s[..L - i][..L - i - 1] == s[..L - (i + 1)];
    assert cur[f][|cur[f]| - 1] == c;
    var lhs := cur[f := s[..L - (i + 1)]][t := s0[t] + R + [c]];
    assert s0[t] + R + [c] == s0[t] + (R + [c]);
    assert lhs == s0[f := s[..L - (i + 1)]][t := s0[t] + (R + [c])];
  }

  lemma PopStep(s: seq<char>, i: nat)
    requires i < |s|
    ensures s[|s| - (i + 1)..] == [s[|s| - i - 1]] + s[|s| - i..]
    ensures Reverse(s[|s| - (i + 1)..]) == Reverse(s[|s| - i..]) + [s[|s| - i - 1]]
  {
    assert s[|s| - (i + 1)..][1..] == s[|s| - i..];
  }
}
