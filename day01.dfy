/** Calorie counting (day 1): the input is one block of numbers per elf;
    part 1 is the largest block total, part 2 the sum of the three largest. */
module Day01 {
  import opened Common
  import opened Util

  /** `elf_calories`: the total of each block, in block order. */
  function ElfCalories(blocks: seq<seq<int>>): (cals: seq<int>)
    ensures |cals| == |blocks|
    ensures forall k :: 0 <= k < |blocks| ==> cals[k] == Sum(blocks[k])
  {
    if blocks == [] then [] else [Sum(blocks[0])] + ElfCalories(blocks[1..])
  }

  /** No calorie is lost or counted twice: the totals add up to the sum of
      all the numbers of the input. */
  lemma {:induction false} ElfCaloriesTotal(blocks: seq<seq<int>>)
    ensures Sum(ElfCalories(blocks)) == Sum(Flatten(blocks))
  {
    if blocks != [] {
      ElfCaloriesTotal(blocks[1..]);
      SumAppend(blocks[0], Flatten(blocks[1..]));
    }
  }

  /** `part_1`: the largest block total; None where the source's `unwrap`
      panics, when there is no block. */
  function MostCalories(blocks: seq<seq<int>>): (r: Option<int>)
    ensures r.None? <==> blocks == []
    ensures r.Some? ==> exists k :: 0 <= k < |blocks| && r.value == Sum(blocks[k])
    ensures r.Some? ==> forall k :: 0 <= k < |blocks| ==> Sum(blocks[k]) <= r.value
  {
    var cals := ElfCalories(blocks);
    if cals == [] then None else Some(MaxOf(cals))
  }

  predicate NonIncreasing(s: seq<int>)
  {
    forall i, j :: 0 <= i < j < |s| ==> s[i] >= s[j]
  }

  /** `top` holds the largest `min(3, |cals|)` totals in non-increasing
      order, and `rest` the others, none above any total in `top`. */
  ghost predicate IsTop(cals: seq<int>, top: seq<int>, rest: seq<int>)
  {
    && |top| == Min(3, |cals|)
    && multiset(top) + multiset(rest) == multiset(cals)
    && NonIncreasing(top)
    && (forall i, j :: 0 <= i < |top| && 0 <= j < |rest| ==> rest[j] <= top[i])
  }

  lemma {:induction false} ReverseMultiset(s: seq<int>)
    ensures multiset(Reverse(s)) == multiset(s)
  {
    if s != [] {
      ReverseMultiset(s[1..]);
      assert s == [s[0]] + s[1..];
    }
  }

  /** The ascending order read backwards is non-increasing. */
  lemma ReverseOfSorted(s: seq<int>)
    requires SortedAsc(s)
    ensures NonIncreasing(Reverse(s))
  {
  }

  /** The first `min(3, n)` entries of a non-increasing arrangement of the
      totals are the top ones. */
  lemma TopOfNonIncreasing(cals: seq<int>, desc: seq<int>)
    requires NonIncreasing(desc) && multiset(desc) == multiset(cals)
    ensures |desc| == |cals|
    ensures IsTop(cals, desc[..Min(3, |cals|)], desc[Min(3, |cals|)..])
  {
    assert |desc| == |multiset(desc)| == |cals|;
    var n := Min(3, |cals|);
    assert desc == desc[..n] + desc[n..];
  }

  lemma {:induction false} SumSnoc(s: seq<int>, i: nat)
    requires i < |s|
    ensures Sum(s[..i + 1]) == Sum(s[..i]) + s[i]
  {
    assert s[..i + 1] == s[..i] + [s[i]];
    SumAppend(s[..i], [s[i]]);
  }

  /** `s` without one occurrence of `x`. */
  function RemoveOne(s: seq<int>, x: int): (r: seq<int>)
    requires x in s
    ensures |r| == |s| - 1
    ensures multiset(r) == multiset(s) - multiset{x}
  {
    assert s == [s[0]] + s[1..];
    if s[0] == x then s[1..] else [s[0]] + RemoveOne(s[1..], x)
  }

  /** Reference definition of part 2, independent of sorting: the largest
      total, then the largest of the others, `k` times over (fewer when
      there are fewer totals). */
  function TopK(s: seq<int>, k: nat): (top: seq<int>)
    ensures |top| == Min(k, |s|)
    decreases k
  {
    if k == 0 || s == [] then [] else
      var x := MaxOf(s);
      [x] + TopK(RemoveOne(s, x), k - 1)
  }

  /** The first entry of a non-increasing arrangement of `s` is the
      largest element of `s`. */
  lemma HeadIsMax(s: seq<int>, desc: seq<int>)
    requires NonIncreasing(desc) && multiset(desc) == multiset(s) && s != []
    ensures desc != [] && desc[0] == MaxOf(s)
  {
    var x := MaxOf(s);
    assert x in multiset(desc);
    var j :| 0 <= j < |desc| && desc[j] == x;
    assert desc[0] in multiset(s);
  }

  /** Dropping the first entry of an arrangement of `s` leaves an
      arrangement of `s` without that element. */
  lemma TailArrangement(s: seq<int>, desc: seq<int>, x: int)
    requires multiset(desc) == multiset(s) && desc != [] && desc[0] == x && x in s
    ensures multiset(desc[1..]) == multiset(RemoveOne(s, x))
  {
    assert desc == [x] + desc[1..];
  }

  lemma PrefixStep(desc: seq<int>, x: int, k: nat, n: nat)
    requires desc != [] && desc[0] == x && 0 < k && 0 < n == |desc|
    ensures desc[..Min(k, n)] == [x] + desc[1..][..Min(k - 1, n - 1)]
  {
  }

  /** Any non-increasing arrangement of the totals starts with the totals
      `TopK` picks, so sorting and taking a prefix agrees with picking the
      largest one at a time. */
  lemma {:induction false} PrefixIsTopK(s: seq<int>, desc: seq<int>, k: nat)
    requires NonIncreasing(desc) && multiset(desc) == multiset(s)
    ensures |desc| == |s|
    ensures desc[..Min(k, |s|)] == TopK(s, k)
    decreases k
  {
    assert |desc| == |multiset(desc)| == |s|;
    if k != 0 && s != [] {
      var x := MaxOf(s);
      HeadIsMax(s, desc);
      TailArrangement(s, desc, x);
      var s' := RemoveOne(s, x);
      PrefixIsTopK(s', desc[1..], k - 1);
      PrefixStep(desc, x, k, |s|);
    }
  }

  /** `part_2`: sorts the totals, reverses them, and adds up the first three
      (all of them when there are fewer than three). The result is the sum
      of the three totals `TopK` picks; `top` and `rest` split the totals
      as `IsTop` describes. */
  method TopThreeCalories(blocks: seq<seq<int>>) returns (r: int, ghost top: seq<int>, ghost rest: seq<int>)
    ensures r == Sum(TopK(ElfCalories(blocks), 3))
    ensures top == TopK(ElfCalories(blocks), 3)
    ensures IsTop(ElfCalories(blocks), top, rest)
  {
    var cals := ElfCalories(blocks);
    ghost var original := cals;
    cals := SortAsc(cals);
    ReverseOfSorted(cals);
    ReverseMultiset(cals);
    cals := Reverse(cals);
    TopOfNonIncreasing(original, cals);
    PrefixIsTopK(original, cals, 3);
    var n := Min(3, |cals|);
    r := 0;
    var i := 0;
    while i < n
      invariant i <= n
      invariant r == Sum(cals[..i])
    {
      SumSnoc(cals, i);
      r := r + cals[i];
      i := i + 1;
    }
    top, rest := cals[..n], cals[n..];
  }

  /** A sum of non-negative numbers is at least each of them. */
  lemma {:induction false} SumAtLeastMember(s: seq<int>, i: nat)
    requires i < |s|
    requires forall k :: 0 <= k < |s| ==> s[k] >= 0
    ensures Sum(s) >= s[i]
  {
    if i == 0 {
      SumNonNegative(s[1..]);
    } else {
      SumAtLeastMember(s[1..], i - 1);
    }
  }

  /** With no negative total, the three largest totals together are at
      least the largest one: part 2 is never below part 1. */
  lemma TopAtLeastMost(blocks: seq<seq<int>>, top: seq<int>, rest: seq<int>)
    requires IsTop(ElfCalories(blocks), top, rest)
    requires blocks != []
    requires forall k :: 0 <= k < |blocks| ==> Sum(blocks[k]) >= 0
    ensures Sum(top) >= MostCalories(blocks).value
  {
    var cals := ElfCalories(blocks);
    var m := MostCalories(blocks).value;
    assert forall k :: 0 <= k < |top| ==> top[k] >= 0 by {
      forall k | 0 <= k < |top|
        ensures top[k] >= 0
      {
        assert top[k] in multiset(cals);
      }
    }
    var k :| 0 <= k < |blocks| && m == Sum(blocks[k]);
    assert cals[k] in multiset(cals);
    if m in multiset(top) {
      var i :| 0 <= i < |top| && top[i] == m;
      SumAtLeastMember(top, i);
    } else {
      assert m in multiset(rest);
      var j :| 0 <= j < |rest| && rest[j] == m;
      SumAtLeastMember(top, 0);
    }
  }
}
