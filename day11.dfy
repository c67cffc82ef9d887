/** Monkeys passing items (day 11). Each monkey holds a queue of worry
    levels; on its turn it inspects every item in order, applies its
    operation, reduces the worry (division by three with relief, otherwise
    the remainder modulo the product of all test divisors) and throws the
    item to one of two monkeys depending on divisibility. */
module Day11 {
  import opened Common

  datatype Operator = Plus | Times

  datatype Operand = Old | Number(n: nat)

  datatype Operation = Operation(left: Operand, operator: Operator, right: Operand)

  function ApplyOperator(op: Operator, left: nat, right: nat): nat
  {
    match op
    case Plus => left + right
    case Times => left * right
  }

  function OperandValue(o: Operand, worry: nat): nat
  {
    match o
    case Old => worry
    case Number(x) => x
  }

  /** `Operation::apply`: the operator applied to both operand values. */
  function Apply(op: Operation, worry: nat): nat
  {
    ApplyOperator(op.operator, OperandValue(op.left, worry), OperandValue(op.right, worry))
  }

  // ---------------------------------------------------------------------------
  // Remainders: why reducing modulo the product of the divisors is harmless

  lemma ModOfMod(a: int, m: int)
    requires m > 0
    ensures (a % m) % m == a % m
  {
    ModUnique(a % m, m, 0, a % m);
  }

  lemma ModAdd(a: int, b: int, m: int)
    requires m > 0
    ensures (a + b) % m == ((a % m) + (b % m)) % m
  {
    var qa, ra := a / m, a % m;
    var qb, rb := b / m, b % m;
    var t := ra + rb;
    var qt, rt := t / m, t % m;
    assert a + b == m * (qa + qb + qt) + rt;
    ModUnique(a + b, m, qa + qb + qt, rt);
  }

  lemma ModMul(a: int, b: int, m: int)
    requires m > 0
    ensures (a * b) % m == ((a % m) * (b % m)) % m
  {
    var qa, ra := a / m, a % m;
    var qb, rb := b / m, b % m;
    var t := ra * rb;
    var qt, rt := t / m, t % m;
    assert a * b == (m * qa + ra) * b;
    assert (m * qa + ra) * b == m * (qa * b) + ra * b;
    assert ra * b == ra * (m * qb + rb);
    assert ra * (m * qb + rb) == m * (ra * qb) + t;
    assert a * b == m * (qa * b + ra * qb + qt) + rt;
    ModUnique(a * b, m, qa * b + ra * qb + qt, rt);
  }

  /** A remainder modulo `m` keeps the remainder modulo any divisor `d` of `m`. */
  lemma ModOfMultiple(a: int, m: int, d: int)
    requires m > 0 && d > 0 && m % d == 0
    ensures (a % m) % d == a % d
  {
    var k := m / d;
    var q, r := a / m, a % m;
    var q2, r2 := r / d, r % d;
    assert m == d * k;
    assert a == m * q + r;
    assert m * q == d * (k * q);
    assert a == d * (k * q + q2) + r2;
    ModUnique(a, d, k * q + q2, r2);
  }

  /** The operation commutes with taking remainders modulo `m`. */
  lemma ApplyMod(op: Operation, x: nat, m: nat)
    requires m > 0
    ensures Apply(op, x % m) % m == Apply(op, x) % m
  {
    var l, r := OperandValue(op.left, x), OperandValue(op.right, x);
    var l', r' := OperandValue(op.left, x % m), OperandValue(op.right, x % m);
    ModOfMod(x, m);
    assert l' % m == l % m && r' % m == r % m;
    match op.operator
    case Plus =>
      ModAdd(l, r, m);
      ModAdd(l', r', m);
    case Times =>
      ModMul(l, r, m);
      ModMul(l', r', m);
  }

  /** Without relief, a monkey that keeps the worry only modulo `m`, a
      multiple of its divisor `d`, throws the item exactly where it would have
      thrown the full worry: the reduced and the full worry agree modulo `m`
      after the operation, and therefore agree on divisibility by `d`. */
  lemma ReducedWorryAgrees(op: Operation, full: nat, reduced: nat, m: nat, d: nat)
    requires m > 0 && d > 0 && m % d == 0
    requires reduced % m == full % m
    ensures (Apply(op, reduced) % m) % m == Apply(op, full) % m
    ensures (Apply(op, reduced) % m) % d == 0 <==> Apply(op, full) % d == 0
  {
    ModOfMod(full, m);
    ApplyMod(op, reduced, m);
    ApplyMod(op, full, m);
    assert reduced % m == full % m % m;
    ModOfMod(Apply(op, reduced), m);
    ModOfMultiple(Apply(op, full), m, d);
  }

  // ---------------------------------------------------------------------------
  // Monkeys

  datatype Monkey = Monkey(
    items: seq<nat>,
    operation: Operation,
    testDivisor: nat,
    testTrueMonkey: nat,
    testFalseMonkey: nat,
    activeness: nat)

  /** The product of all test divisors (`Monkeys::parse`). */
  function DivisorProduct(ms: seq<Monkey>): nat
  {
    if ms == [] then 1 else ms[0].testDivisor * DivisorProduct(ms[1..])
  }

  /** Every divisor divides the product of all of them. */
  lemma {:induction false} DivisorDividesProduct(ms: seq<Monkey>, i: nat)
    requires i < |ms| && ms[i].testDivisor > 0
    ensures DivisorProduct(ms) % ms[i].testDivisor == 0
  {
    var d := ms[i].testDivisor;
    var rest := DivisorProduct(ms[1..]);
    if i == 0 {
      assert DivisorProduct(ms) == rest * d;
      MultipleMod(rest, d);
    } else {
      DivisorDividesProduct(ms[1..], i - 1);
      var k := rest / d;
      ModUnique(rest, d, k, 0);
      assert DivisorProduct(ms) == ms[0].testDivisor * (d * k);
      assert DivisorProduct(ms) == (ms[0].testDivisor * k) * d;
      MultipleMod(ms[0].testDivisor * k, d);
    }
  }

  /** One inspection: the new worry level and the monkey it is thrown to.
      None for the source's panics (a zero divisor, or a zero product of
      divisors when there is no relief). */
  function Inspect(m: Monkey, item: nat, relief: bool, modDivisor: nat): (r: Option<(nat, nat)>)
  {
    var w := Apply(m.operation, item);
    if !relief && modDivisor == 0 then None
    else
      var w' := if relief then w / 3 else w % modDivisor;
      if m.testDivisor == 0 then None
      else Some((w', if w' % m.testDivisor == 0 then m.testTrueMonkey else m.testFalseMonkey))
  }
  /** Without relief, an item whose worry is kept modulo a multiple of the
      monkey's divisor goes where the full worry would have sent it, and the
      new reduced worry still agrees with the full one modulo that multiple. */
  lemma InspectWithoutRelief(m: Monkey, full: nat, reduced: nat, modDivisor: nat)
    requires modDivisor > 0 && m.testDivisor > 0 && modDivisor % m.testDivisor == 0
    requires reduced % modDivisor == full % modDivisor
    ensures Inspect(m, reduced, false, modDivisor).Some?
    ensures var thrown := Inspect(m, reduced, false, modDivisor).value;
      && thrown.0 % modDivisor == Apply(m.operation, full) % modDivisor
      && thrown.1 == if Apply(m.operation, full) % m.testDivisor == 0 then m.testTrueMonkey else m.testFalseMonkey
  {
    ReducedWorryAgrees(m.operation, full, reduced, modDivisor, m.testDivisor);
  }


  /** The throwing rules of a monkey, everything but its queue and counter. */
  predicate SameRules(ms: seq<Monkey>, ms': seq<Monkey>)
  {
    |ms| == |ms'|
      && forall k :: 0 <= k < |ms| ==>
        ms'[k].operation == ms[k].operation && ms'[k].testDivisor == ms[k].testDivisor
        && ms'[k].testTrueMonkey == ms[k].testTrueMonkey
        && ms'[k].testFalseMonkey == ms[k].testFalseMonkey
  }

  /** No monkey throws to itself. The source's turn loop runs until the
      acting monkey's queue is empty; with a self-throw it can run forever
      (an item whose worry keeps sending it back), so the model of a turn
      is restricted to monkeys without one. */
  predicate NoSelfThrows(ms: seq<Monkey>)
  {
    forall k :: 0 <= k < |ms| ==> ms[k].testTrueMonkey != k && ms[k].testFalseMonkey != k
  }

  /** The queues after monkey `id` has inspected and thrown its remaining
      items, front first; None where the source panics (including a target
      monkey that does not exist). */
  function Turn(ms: seq<Monkey>, id: nat, relief: bool, modDivisor: nat): Option<seq<Monkey>>
    requires id < |ms| && ms[id].testTrueMonkey != id && ms[id].testFalseMonkey != id
    decreases |ms[id].items|
  {
    var m := ms[id];
    if m.items == [] then Some(ms)
    else
      match Inspect(m, m.items[0], relief, modDivisor)
      case None => None
      case Some((w, t)) =>
        if t >= |ms| then None
        else
          var ms1 := ms[id := m.(items := m.items[1..], activeness := m.activeness + 1)];
          Turn(ms1[t := ms1[t].(items := ms1[t].items + [w])], id, relief, modDivisor)
  }

  function TotalItems(ms: seq<Monkey>): nat
  {
    if ms == [] then 0 else |ms[0].items| + TotalItems(ms[1..])
  }

  lemma {:induction false} TotalItemsUpdate(ms: seq<Monkey>, k: nat, m: Monkey)
    requires k < |ms|
    ensures TotalItems(ms[k := m]) + |ms[k].items| == TotalItems(ms) + |m.items|
  {
    if k > 0 {
      assert ms[k := m][1..] == ms[1..][k - 1 := m];
      TotalItemsUpdate(ms[1..], k - 1, m);
    }
  }

  /** A turn empties the acting monkey's queue, counts one inspection per item
      it held, keeps every monkey's rules, never loses or creates an item, and
      only appends to the other monkeys' queues. */
  lemma {:induction false} TurnFacts(ms: seq<Monkey>, id: nat, relief: bool, modDivisor: nat)
    requires id < |ms| && ms[id].testTrueMonkey != id && ms[id].testFalseMonkey != id
    requires Turn(ms, id, relief, modDivisor).Some?
    ensures var ms' := Turn(ms, id, relief, modDivisor).value;
      && SameRules(ms, ms')
      && ms'[id].items == []
      && ms'[id].activeness == ms[id].activeness + |ms[id].items|
      && TotalItems(ms') == TotalItems(ms)
      && (forall k :: 0 <= k < |ms| && k != id ==>
            ms'[k].activeness == ms[k].activeness && ms[k].items <= ms'[k].items)
    decreases |ms[id].items|
  {
    var m := ms[id];
    if m.items != [] {
      var thrown := Inspect(m, m.items[0], relief, modDivisor).value;
      var w, t := thrown.0, thrown.1;
      var ms1 := ms[id := m.(items := m.items[1..], activeness := m.activeness + 1)];
      var ms2 := ms1[t := ms1[t].(items := ms1[t].items + [w])];
      ThrowFacts(ms, id, t, w);
      TurnFacts(ms2, id, relief, modDivisor);
      var ms' := Turn(ms, id, relief, modDivisor).value;
      assert ms' == Turn(ms2, id, relief, modDivisor).value;
      forall k | 0 <= k < |ms| && k != id
        ensures ms'[k].activeness == ms[k].activeness && ms[k].items <= ms'[k].items
      {
        assert ms[k].items <= ms2[k].items;
      }
    }
  }

  /** One throw of a turn: the acting monkey loses its front item and counts
      one more inspection, the target gains `w` at the back. */
  lemma ThrowFacts(ms: seq<Monkey>, id: nat, t: nat, w: nat)
    requires id < |ms| && t < |ms| && t != id && ms[id].items != []
    ensures var m := ms[id];
      var ms1 := ms[id := m.(items := m.items[1..], activeness := m.activeness + 1)];
      var ms2 := ms1[t := ms1[t].(items := ms1[t].items + [w])];
      && SameRules(ms, ms2)
      && ms2[id].items == m.items[1..] && ms2[id].activeness == m.activeness + 1
      && TotalItems(ms2) == TotalItems(ms)
      && (forall k :: 0 <= k < |ms| && k != id ==>
            ms2[k].activeness == ms[k].activeness && ms[k].items <= ms2[k].items)
  {
    var m := ms[id];
    var ms1 := ms[id := m.(items := m.items[1..], activeness := m.activeness + 1)];
    TotalItemsUpdate(ms, id, ms1[id]);
    TotalItemsUpdate(ms1, t, ms1[t].(items := ms1[t].items + [w]));
  }

  /** The queues after monkeys `from`, `from + 1`, ... have taken their turns. */
  function RoundFrom(ms: seq<Monkey>, from: nat, relief: bool, modDivisor: nat): Option<seq<Monkey>>
    requires NoSelfThrows(ms)
    decreases |ms| - from
  {
    if from >= |ms| then Some(ms)
    else
      match Turn(ms, from, relief, modDivisor)
      case None => None
      case Some(ms') =>
        TurnFacts(ms, from, relief, modDivisor);
        RoundFrom(ms', from + 1, relief, modDivisor)
  }

  /** `run_round`: every monkey takes one turn, in index order. */
  function Round(ms: seq<Monkey>, relief: bool, modDivisor: nat): Option<seq<Monkey>>
    requires NoSelfThrows(ms)
  {
    RoundFrom(ms, 0, relief, modDivisor)
  }

  /** A round keeps the monkeys' rules and the number of items in play, and
      no monkey's activeness goes down. */
  lemma {:induction false} RoundFromFacts(ms: seq<Monkey>, from: nat, relief: bool, modDivisor: nat)
    requires NoSelfThrows(ms) && RoundFrom(ms, from, relief, modDivisor).Some?
    ensures var ms' := RoundFrom(ms, from, relief, modDivisor).value;
      && SameRules(ms, ms') && NoSelfThrows(ms')
      && TotalItems(ms') == TotalItems(ms)
      && forall k :: 0 <= k < |ms| ==> ms'[k].activeness >= ms[k].activeness
    decreases |ms| - from
  {
    if from < |ms| {
      var ms1 := Turn(ms, from, relief, modDivisor).value;
      TurnFacts(ms, from, relief, modDivisor);
      RoundFromFacts(ms1, from + 1, relief, modDivisor);
    }
  }

  lemma RoundFacts(ms: seq<Monkey>, relief: bool, modDivisor: nat)
    requires NoSelfThrows(ms) && Round(ms, relief, modDivisor).Some?
    ensures var ms' := Round(ms, relief, modDivisor).value;
      && SameRules(ms, ms') && NoSelfThrows(ms')
      && TotalItems(ms') == TotalItems(ms)
      && forall k :: 0 <= k < |ms| ==> ms'[k].activeness >= ms[k].activeness
  {
    RoundFromFacts(ms, 0, relief, modDivisor);
  }

  // ---------------------------------------------------------------------------
  // The two largest activeness values

  function Activenesses(ms: seq<Monkey>): (r: seq<nat>)
    ensures |r| == |ms| && forall k :: 0 <= k < |ms| ==> r[k] == ms[k].activeness
  {
    if ms == [] then [] else [ms[0].activeness] + Activenesses(ms[1..])
  }

  /** The elements of `s` greater than `x`, in order. */
  function Above(s: seq<int>, x: int): seq<int>
  {
    if s == [] then [] else Above(s[..|s| - 1], x) + (if s[|s| - 1] > x then [s[|s| - 1]] else [])
  }

  lemma {:induction false} AboveMultiset(s: seq<int>, x: int, v: int)
    ensures multiset(Above(s, x))[v] == if v > x then multiset(s)[v] else 0
  {
    if s != [] {
      var init, last := s[..|s| - 1], s[|s| - 1];
      AboveMultiset(init, x, v);
      assert s == init + [last];
      assert multiset(s) == multiset(init) + multiset{last};
      var tail := if last > x then [last] else [];
      assert multiset(Above(s, x)) == multiset(Above(init, x)) + multiset(tail);
    }
  }

  /** How many elements exceed `x` depends only on the multiset. */
  lemma AboveCount(a: seq<int>, b: seq<int>, x: int)
    requires multiset(a) == multiset(b)
    ensures |Above(a, x)| == |Above(b, x)|
  {
    forall v
      ensures multiset(Above(a, x))[v] == multiset(Above(b, x))[v]
    {
      AboveMultiset(a, x, v);
      AboveMultiset(b, x, v);
    }
    assert multiset(Above(a, x)) == multiset(Above(b, x));
  }

  lemma {:induction false} AboveGrows(s: seq<int>, x: int, i: nat, j: nat)
    requires i <= j <= |s|
    ensures |Above(s[..i], x)| <= |Above(s[..j], x)|
    decreases j - i
  {
    if i < j {
      AboveGrows(s, x, i, j - 1);
      assert s[..j][..j - 1] == s[..j - 1];
    }
  }

  /** Two distinct positions holding values above `x` make two elements above `x`. */
  lemma TwoAbove(s: seq<int>, x: int, i: nat, j: nat)
    requires i < j < |s| && s[i] > x && s[j] > x
    ensures |Above(s, x)| >= 2
  {
    assert s[..i + 1][..i] == s[..i];
    assert |Above(s[..i + 1], x)| >= 1;
    AboveGrows(s, x, i + 1, j);
    assert s[..j + 1][..j] == s[..j];
    assert |Above(s[..j + 1], x)| >= 2;
    AboveGrows(s, x, j + 1, |s|);
    assert s[..|s|] == s;
  }

  /** In an ascending sequence at most the last element exceeds the one before it. */
  lemma {:induction false} SortedAbove(s: seq<int>)
    requires SortedAsc(s) && |s| >= 2
    ensures |Above(s, s[|s| - 2])| <= 1
  {
    var x := s[|s| - 2];
    var p := s[..|s| - 1];
    assert Above(p, x) == [] by {
      NoneAbove(p, x);
    }
  }

  lemma {:induction false} NoneAbove(s: seq<int>, x: int)
    requires forall i :: 0 <= i < |s| ==> s[i] <= x
    ensures Above(s, x) == []
  {
    if s != [] {
      NoneAbove(s[..|s| - 1], x);
    }
  }

  lemma MulMonotone(a: nat, b: nat, c: nat, d: nat)
    requires a <= c && b <= d
    ensures a * b <= c * d
  {
    assert a * b <= c * b;
    assert c * b <= c * d;
  }

  /** The last two entries of the sorted activeness values: the largest
      value `y`, and a value `x <= y` that at most one entry exceeds. */
  function TopTwo(acts: seq<nat>): (xy: (nat, nat))
    requires |acts| >= 2
    ensures xy.0 <= xy.1
  {
    var s := SortAsc(acts);
    SortedTop(acts, s);
    (s[|s| - 2], s[|s| - 1])
  }

  /** Two distinct monkeys hold the two values; no value exceeds the
      second, and at most one exceeds the first. */
  lemma TopTwoFacts(acts: seq<nat>)
    requires |acts| >= 2
    ensures var xy := TopTwo(acts);
      && (exists i, j :: (0 <= i < |acts| && 0 <= j < |acts| && i != j &&
            acts[i] == xy.0 && acts[j] == xy.1))
      && (forall k :: 0 <= k < |acts| ==> acts[k] <= xy.1)
      && |Above(acts, xy.0)| <= 1
  {
    SortedTop(acts, SortAsc(acts));
  }

  lemma SortedTop(acts: seq<nat>, s: seq<int>)
    requires |acts| >= 2 && SortedAsc(s) && multiset(s) == multiset(acts) && |s| == |acts|
    ensures 0 <= s[|s| - 2] <= s[|s| - 1]
    ensures exists i, j :: (0 <= i < |acts| && 0 <= j < |acts| && i != j &&
      acts[i] == s[|s| - 2] && acts[j] == s[|s| - 1])
    ensures forall k :: 0 <= k < |acts| ==> acts[k] <= s[|s| - 1]
    ensures |Above(acts, s[|s| - 2])| <= 1
  {
    var x, y := s[|s| - 2], s[|s| - 1];
    assert s == s[..|s| - 2] + [x, y];
    assert x in multiset(acts);
    forall k | 0 <= k < |acts|
      ensures acts[k] <= y
    {
      assert acts[k] in multiset(s);
    }
    SortedAbove(s);
    AboveCount(acts, s, x);
    PairIndices(acts, s, x, y);
  }

  /** `monkey_business`: sort the activeness values and multiply the last
      two; panics (None) with fewer than two monkeys. */
  function MonkeyBusiness(acts: seq<nat>): (r: Option<nat>)
    ensures r.Some? <==> |acts| >= 2
  {
    if |acts| < 2 then None
    else
      var top := TopTwo(acts);
      Some(top.0 * top.1)
  }

  /** The monkey business is the largest product of the activeness values of
      two distinct monkeys, and two distinct monkeys attain it. */
  lemma MonkeyBusinessIsBestPair(acts: seq<nat>)
    requires |acts| >= 2
    ensures forall i, j :: 0 <= i < |acts| && 0 <= j < |acts| && i != j ==>
      acts[i] * acts[j] <= MonkeyBusiness(acts).value
    ensures exists i, j :: (0 <= i < |acts| && 0 <= j < |acts| && i != j &&
      MonkeyBusiness(acts).value == acts[i] * acts[j])
  {
    var top := TopTwo(acts);
    TopTwoFacts(acts);
    BestPair(acts, top.0, top.1);
  }

  lemma BestPair(acts: seq<nat>, x: nat, y: nat)
    requires forall k :: 0 <= k < |acts| ==> acts[k] <= y
    requires |Above(acts, x)| <= 1
    ensures forall i, j :: 0 <= i < |acts| && 0 <= j < |acts| && i != j ==> acts[i] * acts[j] <= x * y
  {
    forall i, j | 0 <= i < |acts| && 0 <= j < |acts| && i != j
      ensures acts[i] * acts[j] <= x * y
    {
      if acts[i] > x && acts[j] > x {
        if i < j { TwoAbove(acts, x, i, j); } else { TwoAbove(acts, x, j, i); }
        assert false;
      }
      if acts[i] <= x {
        MulMonotone(acts[i], acts[j], x, y);
      } else {
        MulMonotone(acts[j], acts[i], x, y);
      }
    }
  }

  /** Two values that occur together in the multiset occur at two distinct
      positions. */
  lemma PairIndices(acts: seq<int>, s: seq<int>, x: int, y: int)
    requires |s| >= 2 && multiset(s) == multiset(acts) && s[..|s| - 2] + [x, y] == s
    ensures exists i, j :: 0 <= i < |acts| && 0 <= j < |acts| && i != j && acts[i] == x && acts[j] == y
  {
    assert multiset(s) == multiset(s[..|s| - 2]) + multiset{x, y};
    assert x in multiset(acts) && y in multiset(acts);
    var i :| 0 <= i < |acts| && acts[i] == x;
    if x != y {
      var j :| 0 <= j < |acts| && acts[j] == y;
    } else {
      OtherIndex(acts, i);
    }
  }

  /** A value that occurs twice in the multiset occurs at a second position. */
  lemma OtherIndex(acts: seq<int>, i: nat)
    requires i < |acts| && multiset(acts)[acts[i]] >= 2
    ensures exists j :: 0 <= j < |acts| && j != i && acts[j] == acts[i]
  {
    var x := acts[i];
    var rest := acts[..i] + acts[i + 1..];
    assert acts == acts[..i] + [x] + acts[i + 1..];
    assert multiset(acts) == multiset(rest) + multiset{x};
    assert x in multiset(rest);
    var j' :| 0 <= j' < |rest| && rest[j'] == x;
    var j := if j' < i then j' else j' + 1;
    assert acts[j] == x;
  }

  // ---------------------------------------------------------------------------
  // The troop, updated in place

  class Monkeys {
    var monkeys: seq<Monkey>
    var modDivisor: nat

    /** `Monkeys::parse` from already parsed monkeys: the reduction modulus is
        the product of all test divisors. */
    constructor(ms: seq<Monkey>)
      ensures monkeys == ms && modDivisor == DivisorProduct(ms)
    {
      monkeys := ms;
      modDivisor := DivisorProduct(ms);
    }

    /** `make_turn`: pop items from the front of monkey `id`'s queue until it
        is empty, counting each inspection and pushing the new worry onto the
        back of the target's queue. */
    method MakeTurn(id: nat, relief: bool) returns (ok: bool)
      requires id < |monkeys| && monkeys[id].testTrueMonkey != id && monkeys[id].testFalseMonkey != id
      modifies this`monkeys
      ensures Turn(old(monkeys), id, relief, modDivisor) == if ok then Some(monkeys) else None
    {
      while monkeys[id].items != []
        invariant id < |monkeys| && monkeys[id].testTrueMonkey != id && monkeys[id].testFalseMonkey != id
        invariant Turn(monkeys, id, relief, modDivisor) == Turn(old(monkeys), id, relief, modDivisor)
        decreases |monkeys[id].items|
      {
        var monkey := monkeys[id];
        var item := monkey.items[0];
        monkeys := monkeys[id := monkey.(items := monkey.items[1..], activeness := monkey.activeness + 1)];
        var w := Apply(monkey.operation, item);
        if !relief && modDivisor == 0 {
          return false;
        }
        w := if relief then w / 3 else w % modDivisor;
        if monkey.testDivisor == 0 {
          return false;
        }
        var next := if w % monkey.testDivisor == 0 then monkey.testTrueMonkey else monkey.testFalseMonkey;
        if next >= |monkeys| {
          return false;
        }
        monkeys := monkeys[next := monkeys[next].(items := monkeys[next].items + [w])];
      }
      return true;
    }

    /** `run_round`: each monkey in index order takes its turn. */
    method RunRound(relief: bool) returns (ok: bool)
      requires NoSelfThrows(monkeys)
      modifies this`monkeys
      ensures Round(old(monkeys), relief, modDivisor) == if ok then Some(monkeys) else None
    {
      for id := 0 to |monkeys|
        invariant NoSelfThrows(monkeys) && |monkeys| == |old(monkeys)|
        invariant RoundFrom(monkeys, id, relief, modDivisor) == Round(old(monkeys), relief, modDivisor)
      {
        ghost var before := monkeys;
        ok := MakeTurn(id, relief);
        if !ok {
          return false;
        }
        TurnFacts(before, id, relief, modDivisor);
      }
      return true;
    }

  }
}
