/** Valve opening (day 16): a cave system of valves joined by tunnels. The
    parser registers valves by name, an all-pairs hop-distance matrix is built
    by recursive relaxation from every source, and an exhaustive depth-first
    search finds the largest pressure released within 30 minutes by one agent. */
module Day16 {
  import opened Common

  const MINUTES: nat := 30
  /** Distance of a valve not (yet) reached from the source. */
  const UNREACHABLE: nat := 9999

  // ---------------------------------------------------------------------------
  // Tunnels and walks

  /** Every tunnel leads to a valve that exists. */
  predicate LinksValid(links: seq<seq<nat>>)
  {
    forall u, j :: 0 <= u < |links| && 0 <= j < |links[u]| ==> links[u][j] < |links|
  }

  /** `w` visits valves along tunnels: `w[i+1]` is linked from `w[i]`. */
  predicate IsWalk(links: seq<seq<nat>>, w: seq<nat>)
  {
    && |w| >= 1
    && (forall i :: 0 <= i < |w| ==> w[i] < |links|)
    && (forall i :: 0 <= i < |w| - 1 ==> w[i + 1] in links[w[i]])
  }

  /** There is a walk of `k` tunnels from `s` to `v`. */
  ghost predicate HasWalk(links: seq<seq<nat>>, s: nat, v: nat, k: nat)
  {
    exists w :: IsWalk(links, w) && |w| == k + 1 && w[0] == s && w[|w| - 1] == v
  }

  /** Valve `u` of a distance row has been relaxed: if `u` is reached, every
      valve linked from it is at most one step further. */
  predicate Relaxed(links: seq<seq<nat>>, row: seq<nat>, u: nat)
    requires LinksValid(links) && |row| == |links| && u < |row|
  {
    row[u] < UNREACHABLE ==>
      forall j :: 0 <= j < |links[u]| ==> row[links[u][j]] <= row[u] + 1
  }

  predicate RowRelaxed(links: seq<seq<nat>>, row: seq<nat>)
    requires LinksValid(links) && |row| == |links|
  {
    forall u :: 0 <= u < |row| ==> Relaxed(links, row, u)
  }

  /** A tunnel added from `valve` to an existing valve keeps the links valid. */
  lemma LinksValidPush(links: seq<seq<nat>>, valve: nat, target: nat)
    requires LinksValid(links) && valve < |links| && target < |links|
    ensures LinksValid(links[valve := links[valve] + [target]])
  {
    var links' := links[valve := links[valve] + [target]];
    forall u, j | 0 <= u < |links'| && 0 <= j < |links'[u]|
      ensures links'[u][j] < |links'|
    {
      if u == valve && j < |links[valve]| {
        assert links'[u][j] == links[u][j];
      }
    }
  }

  /** Every finite distance in the row of source `s` is witnessed by a walk,
      and no entry is above the sentinel. */
  ghost predicate RowSound(links: seq<seq<nat>>, row: seq<nat>, s: nat)
  {
    forall v :: 0 <= v < |row| ==>
      row[v] <= UNREACHABLE && (row[v] < UNREACHABLE ==> HasWalk(links, s, v, row[v]))
  }

  /** The finished row of source `s`: 0 at the source, relaxed along every
      tunnel, and every finite entry witnessed by a walk. */
  ghost predicate ShortestRow(links: seq<seq<nat>>, row: seq<nat>, s: nat)
  {
    && LinksValid(links) && |row| == |links| && s < |row|
    && row[s] == 0 && RowRelaxed(links, row) && RowSound(links, row, s)
  }

  /** A fully relaxed row with 0 at the source is a lower bound for the length
      of every walk from the source (that is shorter than the sentinel): together
      with RowSound, each entry is the length of a shortest walk. */
  lemma {:induction false} RelaxedRowBoundsWalks(links: seq<seq<nat>>, row: seq<nat>, w: seq<nat>)
    requires LinksValid(links) && |row| == |links| && RowRelaxed(links, row)
    requires IsWalk(links, w) && row[w[0]] == 0 && |w| - 1 < UNREACHABLE
    ensures row[w[|w| - 1]] <= |w| - 1
  {
    if |w| > 1 {
      var w' := w[..|w| - 1];
      RelaxedRowBoundsWalks(links, row, w');
      var u := w'[|w'| - 1];
      assert Relaxed(links, row, u);
      var j :| 0 <= j < |links[u]| && links[u][j] == w[|w| - 1];
    }
  }

  /** Relaxedness of an unchanged valve survives lowering other entries. */
  lemma RelaxedWhenLowered(links: seq<seq<nat>>, row: seq<nat>, row': seq<nat>, u: nat)
    requires LinksValid(links) && |row| == |links| && |row'| == |row| && u < |row|
    requires forall v :: 0 <= v < |row| ==> row'[v] <= row[v]
    requires row'[u] == row[u] && Relaxed(links, row, u)
    ensures Relaxed(links, row', u)
  {
  }

  /** Lowering the entry of the last valve of a walk to the walk's length
      keeps every finite entry witnessed. */
  lemma LoweredRowSound(links: seq<seq<nat>>, row: seq<nat>, s: nat, w: seq<nat>)
    requires RowSound(links, row, s)
    requires IsWalk(links, w) && w[0] == s && w[|w| - 1] < |row| && |w| - 1 < row[w[|w| - 1]]
    ensures RowSound(links, row[w[|w| - 1] := |w| - 1], s)
  {
    var v := w[|w| - 1];
    assert HasWalk(links, s, v, |w| - 1);
  }

  /** A walk to `current` goes on to `next` along a tunnel, and that lowers
      the entry of `next` soundly. */
  lemma ExtendWalk(links: seq<seq<nat>>, row: seq<nat>, source: nat, walk: seq<nat>, next: nat)
    requires LinksValid(links) && |row| == |links|
    requires IsWalk(links, walk) && walk[0] == source && next in links[walk[|walk| - 1]]
    requires |walk| < row[next]
    requires RowSound(links, row, source)
    ensures IsWalk(links, walk + [next]) && (walk + [next])[0] == source && (walk + [next])[|walk|] == next
    ensures RowSound(links, row[next := |walk|], source)
  {
    var w := walk + [next];
    assert IsWalk(links, w);
    LoweredRowSound(links, row, source, w);
  }

  /** `row'` is `row` with some entries lowered. */
  predicate Below(row: seq<nat>, row': seq<nat>)
  {
    |row'| == |row| && forall v :: 0 <= v < |row| ==> row'[v] <= row[v]
  }

  /** Every entry that changed from `row` to `row'` is above `len` and
      relaxed in `row'`. */
  predicate ChangedRelaxed(links: seq<seq<nat>>, row: seq<nat>, row': seq<nat>, len: nat)
    requires LinksValid(links) && |row| == |links| && |row'| == |links|
  {
    forall v :: 0 <= v < |row| && row'[v] != row[v] ==> row'[v] > len && Relaxed(links, row', v)
  }

  /** One step of the relaxation loop: lowering `next` to `len + 1` and
      exploring it keeps every entry that differs from the row on entry
      relaxed, and leaves `next` at most `len + 1`. */
  lemma StepKeepsRelaxed(links: seq<seq<nat>>, entry: seq<nat>, before: seq<nat>, after: seq<nat>,
                         next: nat, len: nat)
    requires LinksValid(links) && |entry| == |links| && next < |links|
    requires Below(entry, before) && ChangedRelaxed(links, entry, before, len)
    requires len + 1 < before[next]
    requires Below(before[next := len + 1], after)
    requires ChangedRelaxed(links, before[next := len + 1], after, len + 1)
    requires Relaxed(links, after, next)
    ensures Below(before, after) && Below(entry, after) && after[next] <= len + 1
    ensures ChangedRelaxed(links, entry, after, len)
    ensures forall v :: 0 <= v < |links| && before[v] <= len ==> after[v] == before[v]
  {
    var lowered := before[next := len + 1];
    forall v | 0 <= v < |links| && after[v] != entry[v]
      ensures after[v] > len && Relaxed(links, after, v)
    {
      if v != next && after[v] == lowered[v] {
        RelaxedWhenLowered(links, before, after, v);
      }
    }
  }

  lemma MatrixWithRow(dist: seq<seq<nat>>, n: nat, s: nat, row: seq<nat>)
    requires IsMatrix(dist, n) && s < n && |row| == n
    ensures IsMatrix(dist[s := row], n)
  {
  }

  function RowSum(row: seq<nat>): nat
  {
    if row == [] then 0 else row[0] + RowSum(row[1..])
  }

  lemma {:induction false} RowSumDecreases(a: seq<nat>, b: seq<nat>, k: nat)
    requires |a| == |b| && k < |a|
    requires forall i :: 0 <= i < |a| ==> b[i] <= a[i]
    requires b[k] < a[k]
    ensures RowSum(b) < RowSum(a)
  {
    if k > 0 {
      RowSumDecreases(a[1..], b[1..], k - 1);
    } else {
      RowSumMonotone(a[1..], b[1..]);
    }
  }

  lemma {:induction false} RowSumMonotone(a: seq<nat>, b: seq<nat>)
    requires |a| == |b|
    requires forall i :: 0 <= i < |a| ==> b[i] <= a[i]
    ensures RowSum(b) <= RowSum(a)
  {
    if a != [] {
      RowSumMonotone(a[1..], b[1..]);
    }
  }

  // ---------------------------------------------------------------------------
  // What the search computes

  predicate IsMatrix(dist: seq<seq<nat>>, n: nat)
  {
    |dist| == n && forall r :: 0 <= r < n ==> |dist[r]| == n
  }

  /** A move may go to a closed valve with a positive rate. */
  predicate IsCandidate(rates: seq<nat>, open: seq<bool>, v: nat)
    requires |open| == |rates|
  {
    v < |rates| && !open[v] && rates[v] > 0
  }

  /** The number of candidate valves among the first `k`. */
  function CountLeft(rates: seq<nat>, open: seq<bool>, k: nat): nat
    requires |open| == |rates| && k <= |rates|
  {
    if k == 0 then 0
    else CountLeft(rates, open, k - 1) + (if IsCandidate(rates, open, k - 1) then 1 else 0)
  }

  lemma {:induction false} CountLeftZero(rates: seq<nat>, open: seq<bool>, k: nat)
    requires |open| == |rates| && k <= |rates|
    ensures CountLeft(rates, open, k) == 0 <==> forall v :: 0 <= v < k ==> !IsCandidate(rates, open, v)
  {
    if k > 0 {
      CountLeftZero(rates, open, k - 1);
    }
  }

  /** The minute at which the valve `next` is open when the agent leaves
      `current` at `minute`: travel plus one minute, capped at the deadline. */
  function NextMinute(dist: seq<seq<nat>>, minute: nat, current: nat, next: nat): (m: nat)
    requires current < |dist| && next < |dist[current]| && minute < MINUTES
    ensures minute < m <= MINUTES
  {
    Min(MINUTES, minute + dist[current][next] + 1)
  }

  /** The largest total flow over all leaves of the search started in this
      state: with no candidate left the current flow runs to the deadline, at
      the deadline the total stands, otherwise every candidate is tried. */
  function Best(rates: seq<nat>, dist: seq<seq<nat>>, minute: nat, open: seq<bool>,
                current: nat, total: nat, flow: nat): nat
    requires IsMatrix(dist, |rates|) && |open| == |rates| && current < |rates| && minute <= MINUTES
    decreases MINUTES - minute, |rates| + 1
  {
    if CountLeft(rates, open, |rates|) == 0 then total + flow * (MINUTES - minute)
    else if minute == MINUTES then total
    else BestMove(rates, dist, minute, open, current, total, flow, |rates|)
  }

  /** The best leaf reached by first opening one of the candidates below `k`
      (0 when there is none). */
  function BestMove(rates: seq<nat>, dist: seq<seq<nat>>, minute: nat, open: seq<bool>,
                    current: nat, total: nat, flow: nat, k: nat): nat
    requires IsMatrix(dist, |rates|) && |open| == |rates| && current < |rates| && minute < MINUTES
    requires k <= |rates|
    decreases MINUTES - minute, k
  {
    if k == 0 then 0
    else
      var rest := BestMove(rates, dist, minute, open, current, total, flow, k - 1);
      if IsCandidate(rates, open, k - 1) then
        Max(rest, Child(rates, dist, minute, open, current, total, flow, k - 1))
      else rest
  }

  /** The result of moving to candidate `next` and opening it, then searching on. */
  function Child(rates: seq<nat>, dist: seq<seq<nat>>, minute: nat, open: seq<bool>,
                 current: nat, total: nat, flow: nat, next: nat): nat
    requires IsMatrix(dist, |rates|) && |open| == |rates| && current < |rates| && minute < MINUTES
    requires next < |rates|
    decreases MINUTES - minute, 0
  {
    var nm := NextMinute(dist, minute, current, next);
    Best(rates, dist, nm, open[next := true], next, total + (nm - minute) * flow, flow + rates[next])
  }

  lemma {:induction false} BestMoveCoversChild(rates: seq<nat>, dist: seq<seq<nat>>, minute: nat, open: seq<bool>,
                                               current: nat, total: nat, flow: nat, k: nat, next: nat)
    requires IsMatrix(dist, |rates|) && |open| == |rates| && current < |rates| && minute < MINUTES
    requires next < k <= |rates| && IsCandidate(rates, open, next)
    ensures BestMove(rates, dist, minute, open, current, total, flow, k)
            >= Child(rates, dist, minute, open, current, total, flow, next)
  {
    if next < k - 1 {
      BestMoveCoversChild(rates, dist, minute, open, current, total, flow, k - 1, next);
    }
  }

  lemma FloorStep(total: nat, flow: nat, rate: nat, m: nat, nm: nat)
    requires m <= nm <= MINUTES
    ensures total + (nm - m) * flow + (flow + rate) * (MINUTES - nm) >= total + flow * (MINUTES - m)
  {
    assert (nm - m) * flow + flow * (MINUTES - nm) == flow * (MINUTES - m);
    assert (flow + rate) * (MINUTES - nm) >= flow * (MINUTES - nm);
  }

  /** The search never does worse than letting the current flow run to the
      deadline. */
  lemma {:induction false} BestFloor(rates: seq<nat>, dist: seq<seq<nat>>, minute: nat, open: seq<bool>,
                                     current: nat, total: nat, flow: nat)
    requires IsMatrix(dist, |rates|) && |open| == |rates| && current < |rates| && minute <= MINUTES
    ensures Best(rates, dist, minute, open, current, total, flow) >= total + flow * (MINUTES - minute)
    decreases MINUTES - minute
  {
    if CountLeft(rates, open, |rates|) != 0 && minute < MINUTES {
      CountLeftZero(rates, open, |rates|);
      var next :| 0 <= next < |rates| && IsCandidate(rates, open, next);
      BestMoveCoversChild(rates, dist, minute, open, current, total, flow, |rates|, next);
      var nm := NextMinute(dist, minute, current, next);
      BestFloor(rates, dist, nm, open[next := true], next, total + (nm - minute) * flow, flow + rates[next]);
      FloorStep(total, flow, rates[next], minute, nm);
    }
  }

  /** The sum of the rates of the closed valves among the first `k`. */
  function ClosedRates(rates: seq<nat>, open: seq<bool>, k: nat): nat
    requires |open| == |rates| && k <= |rates|
  {
    if k == 0 then 0
    else ClosedRates(rates, open, k - 1) + (if open[k - 1] then 0 else rates[k - 1])
  }

  lemma {:induction false} ClosedRatesOpen(rates: seq<nat>, open: seq<bool>, k: nat, v: nat)
    requires |open| == |rates| && k <= |rates| && v < |rates| && !open[v]
    ensures ClosedRates(rates, open, k)
            == ClosedRates(rates, open[v := true], k) + (if v < k then rates[v] else 0)
  {
    if k > 0 {
      ClosedRatesOpen(rates, open, k - 1, v);
    }
  }

  lemma CeilingStep(total: nat, flow: nat, rate: nat, closed: nat, m: nat, nm: nat)
    requires m <= nm <= MINUTES
    ensures total + (nm - m) * flow + (MINUTES - nm) * (flow + rate + closed)
            <= total + (MINUTES - m) * (flow + rate + closed)
  {
    assert (nm - m) * flow <= (nm - m) * (flow + rate + closed);
    assert (nm - m) * (flow + rate + closed) + (MINUTES - nm) * (flow + rate + closed)
           == (MINUTES - m) * (flow + rate + closed);
  }

  /** The current flow plus every closed valve's rate, run for all the
      remaining minutes. */
  function Ceiling(rates: seq<nat>, open: seq<bool>, minute: nat, total: nat, flow: nat): nat
    requires |open| == |rates| && minute <= MINUTES
  {
    total + (MINUTES - minute) * (flow + ClosedRates(rates, open, |rates|))
  }

  /** An admissible bound: no leaf beats running the current flow plus every
      closed valve's rate for all the remaining minutes. */
  lemma {:induction false} BestCeiling(rates: seq<nat>, dist: seq<seq<nat>>, minute: nat, open: seq<bool>,
                                       current: nat, total: nat, flow: nat)
    requires IsMatrix(dist, |rates|) && |open| == |rates| && current < |rates| && minute <= MINUTES
    ensures Best(rates, dist, minute, open, current, total, flow)
            <= Ceiling(rates, open, minute, total, flow)
    decreases MINUTES - minute, |rates| + 1
  {
    var closed := ClosedRates(rates, open, |rates|);
    if CountLeft(rates, open, |rates|) == 0 {
      assert flow * (MINUTES - minute) <= (MINUTES - minute) * (flow + closed);
      assert Ceiling(rates, open, minute, total, flow) == total + (MINUTES - minute) * (flow + closed);
    } else if minute < MINUTES {
      BestMoveCeiling(rates, dist, minute, open, current, total, flow, |rates|);
    }
  }

  lemma {:induction false} BestMoveCeiling(rates: seq<nat>, dist: seq<seq<nat>>, minute: nat, open: seq<bool>,
                                           current: nat, total: nat, flow: nat, k: nat)
    requires IsMatrix(dist, |rates|) && |open| == |rates| && current < |rates| && minute < MINUTES
    requires k <= |rates|
    ensures BestMove(rates, dist, minute, open, current, total, flow, k)
            <= Ceiling(rates, open, minute, total, flow)
    decreases MINUTES - minute, k
  {
    if k > 0 {
      BestMoveCeiling(rates, dist, minute, open, current, total, flow, k - 1);
      var next := k - 1;
      if IsCandidate(rates, open, next) {
        ChildCeiling(rates, dist, minute, open, current, total, flow, next);
      }
    } else {
      assert BestMove(rates, dist, minute, open, current, total, flow, k) == 0;
    }
  }

  lemma ChildCeiling(rates: seq<nat>, dist: seq<seq<nat>>, minute: nat, open: seq<bool>,
                     current: nat, total: nat, flow: nat, next: nat)
    requires IsMatrix(dist, |rates|) && |open| == |rates| && current < |rates| && minute < MINUTES
    requires IsCandidate(rates, open, next)
    ensures Child(rates, dist, minute, open, current, total, flow, next)
            <= Ceiling(rates, open, minute, total, flow)
    decreases MINUTES - minute, 0
  {
    var nm := NextMinute(dist, minute, current, next);
    var open' := open[next := true];
    var total' := total + (nm - minute) * flow;
    var closed' := ClosedRates(rates, open', |rates|);
    BestCeiling(rates, dist, nm, open', next, total', flow + rates[next]);
    ClosedRatesOpen(rates, open, |rates|, next);
    assert flow + ClosedRates(rates, open, |rates|) == flow + rates[next] + closed';
    CeilingStep(total, flow, rates[next], closed', minute, nm);
    assert Ceiling(rates, open', nm, total', flow + rates[next])
           == total' + (MINUTES - nm) * (flow + rates[next] + closed');
  }

  // ---------------------------------------------------------------------------
  // Opening plans: an independent account of what an order of valves yields

  /** The total flow of opening the valves of `plan` in order (each a candidate
      when its turn comes) and then waiting until the deadline. */
  function PlanValue(rates: seq<nat>, dist: seq<seq<nat>>, minute: nat, open: seq<bool>,
                     current: nat, total: nat, flow: nat, plan: seq<nat>): nat
    requires IsMatrix(dist, |rates|) && |open| == |rates| && current < |rates| && minute <= MINUTES
    decreases |plan|
  {
    if plan == [] || !IsCandidate(rates, open, plan[0]) then total + flow * (MINUTES - minute)
    else if minute == MINUTES then total
    else
      var next := plan[0];
      var nm := NextMinute(dist, minute, current, next);
      PlanValue(rates, dist, nm, open[next := true], next, total + (nm - minute) * flow,
                flow + rates[next], plan[1..])
  }

  /** The search is exhaustive: no order of opening valves beats it. */
  lemma {:induction false} BestBeatsEveryPlan(rates: seq<nat>, dist: seq<seq<nat>>, minute: nat, open: seq<bool>,
                                              current: nat, total: nat, flow: nat, plan: seq<nat>)
    requires IsMatrix(dist, |rates|) && |open| == |rates| && current < |rates| && minute <= MINUTES
    ensures PlanValue(rates, dist, minute, open, current, total, flow, plan)
            <= Best(rates, dist, minute, open, current, total, flow)
    decreases |plan|, 1
  {
    if plan == [] || !IsCandidate(rates, open, plan[0]) {
      BestFloor(rates, dist, minute, open, current, total, flow);
    } else {
      var next := plan[0];
      CountLeftZero(rates, open, |rates|);
      assert CountLeft(rates, open, |rates|) != 0;
      if minute < MINUTES {
        BestMoveCoversChild(rates, dist, minute, open, current, total, flow, |rates|, next);
        ChildBeatsEveryPlan(rates, dist, minute, open, current, total, flow, plan);
        assert Best(rates, dist, minute, open, current, total, flow)
               == BestMove(rates, dist, minute, open, current, total, flow, |rates|);
      }
    }
  }

  /** A plan that opens a candidate valve first is beaten by the search's
      branch for that valve. */
  lemma {:induction false} ChildBeatsEveryPlan(rates: seq<nat>, dist: seq<seq<nat>>, minute: nat, open: seq<bool>,
                                               current: nat, total: nat, flow: nat, plan: seq<nat>)
    requires IsMatrix(dist, |rates|) && |open| == |rates| && current < |rates| && minute < MINUTES
    requires plan != [] && IsCandidate(rates, open, plan[0])
    ensures PlanValue(rates, dist, minute, open, current, total, flow, plan)
            <= Child(rates, dist, minute, open, current, total, flow, plan[0])
    decreases |plan|, 0
  {
    var next := plan[0];
    var nm := NextMinute(dist, minute, current, next);
    var open', total', flow' := open[next := true], total + (nm - minute) * flow, flow + rates[next];
    BestBeatsEveryPlan(rates, dist, nm, open', next, total', flow', plan[1..]);
    assert PlanValue(rates, dist, minute, open, current, total, flow, plan)
           == PlanValue(rates, dist, nm, open', next, total', flow', plan[1..]);
  }

  /** The best move below `k` is one of the children: with no candidate
      below `k` it is 0, otherwise it is the result of some candidate. */
  lemma {:induction false} BestMoveAttained(rates: seq<nat>, dist: seq<seq<nat>>, minute: nat, open: seq<bool>,
                                            current: nat, total: nat, flow: nat, k: nat)
    requires IsMatrix(dist, |rates|) && |open| == |rates| && current < |rates| && minute < MINUTES
    requires k <= |rates|
    ensures || ((forall v :: 0 <= v < k ==> !IsCandidate(rates, open, v))
                && BestMove(rates, dist, minute, open, current, total, flow, k) == 0)
            || (exists next :: (0 <= next < k && IsCandidate(rates, open, next)
                                 && BestMove(rates, dist, minute, open, current, total, flow, k)
                                    == Child(rates, dist, minute, open, current, total, flow, next)))
    decreases k
  {
    if k > 0 {
      BestMoveAttained(rates, dist, minute, open, current, total, flow, k - 1);
    }
  }

  /** The search's value is attained: some order of opening valves yields
      exactly `Best`. Together with `BestBeatsEveryPlan`, `Best` is the
      largest value of any plan. */
  lemma {:induction false} BestAttained(rates: seq<nat>, dist: seq<seq<nat>>, minute: nat, open: seq<bool>,
                                        current: nat, total: nat, flow: nat)
    requires IsMatrix(dist, |rates|) && |open| == |rates| && current < |rates| && minute <= MINUTES
    ensures exists plan :: PlanValue(rates, dist, minute, open, current, total, flow, plan)
                           == Best(rates, dist, minute, open, current, total, flow)
    decreases MINUTES - minute, 1
  {
    if CountLeft(rates, open, |rates|) == 0 || minute == MINUTES {
      assert PlanValue(rates, dist, minute, open, current, total, flow, [])
             == Best(rates, dist, minute, open, current, total, flow);
    } else {
      CountLeftZero(rates, open, |rates|);
      BestMoveAttained(rates, dist, minute, open, current, total, flow, |rates|);
      var next :| 0 <= next < |rates| && IsCandidate(rates, open, next)
        && BestMove(rates, dist, minute, open, current, total, flow, |rates|)
           == Child(rates, dist, minute, open, current, total, flow, next);
      ChildAttained(rates, dist, minute, open, current, total, flow, next);
    }
  }

  /** Some plan starting with `next` yields exactly the child's value. */
  lemma {:induction false} ChildAttained(rates: seq<nat>, dist: seq<seq<nat>>, minute: nat, open: seq<bool>,
                                         current: nat, total: nat, flow: nat, next: nat)
    requires IsMatrix(dist, |rates|) && |open| == |rates| && current < |rates| && minute < MINUTES
    requires IsCandidate(rates, open, next)
    ensures exists plan :: PlanValue(rates, dist, minute, open, current, total, flow, plan)
                           == Child(rates, dist, minute, open, current, total, flow, next)
    decreases MINUTES - minute, 0
  {
    var nm := NextMinute(dist, minute, current, next);
    var open' := open[next := true];
    var total' := total + (nm - minute) * flow;
    var flow' := flow + rates[next];
    BestAttained(rates, dist, nm, open', next, total', flow');
    var rest :| PlanValue(rates, dist, nm, open', next, total', flow', rest)
                == Best(rates, dist, nm, open', next, total', flow');
    var plan := [next] + rest;
    assert plan[0] == next && plan[1..] == rest;
    assert PlanValue(rates, dist, minute, open, current, total, flow, plan)
           == PlanValue(rates, dist, nm, open', next, total', flow', rest);
  }

  // ---------------------------------------------------------------------------
  // The name registry

  /** No name is registered twice. */
  predicate Distinct(names: seq<string>)
  {
    forall i, j :: 0 <= i < j < |names| ==> names[i] != names[j]
  }

  /** Registering one name: an unknown name is appended, a known one leaves
      the list as it was. */
  function Add(names: seq<string>, name: string): (r: seq<string>)
    ensures names <= r && name in r
    ensures forall n :: n in r <==> n in names || n == name
    ensures Distinct(names) ==> Distinct(r)
  {
    if name in names then names else names + [name]
  }

  /** Registering `ns` one after the other. */
  function Register(names: seq<string>, ns: seq<string>): (r: seq<string>)
    ensures names <= r
    ensures forall n :: n in r <==> n in names || n in ns
    ensures Distinct(names) ==> Distinct(r)
    decreases |ns|
  {
    if ns == [] then names else Add(Register(names, ns[..|ns| - 1]), ns[|ns| - 1])
  }

  /** The tunnel list of a valve, or none for a valve not yet registered. */
  function LinksOf(links: seq<seq<nat>>, i: nat): seq<nat>
  {
    if i < |links| then links[i] else []
  }

  /** The rate of a valve, or 0 for a valve not yet registered. */
  function RateOf(rates: seq<nat>, i: nat): nat
  {
    if i < |rates| then rates[i] else 0
  }

  /** `ids` are, in order, the indices of `linkNames` in `names`. */
  predicate IndicesOf(ids: seq<nat>, names: seq<string>, linkNames: seq<string>)
  {
    |ids| == |linkNames| && forall j :: 0 <= j < |ids| ==> ids[j] < |names| && names[ids[j]] == linkNames[j]
  }

  /** `after` is `before` followed by, in order, the index of each of
      `linkNames` in `names`. */
  predicate TunnelsAppended(before: seq<nat>, after: seq<nat>, names: seq<string>, linkNames: seq<string>)
  {
    |before| <= |after| && after[..|before|] == before && IndicesOf(after[|before|..], names, linkNames)
  }

  /** Appending one registered target keeps `TunnelsAppended`, also after
      more names were registered. */
  lemma TunnelsStep(before: seq<nat>, after: seq<nat>, names: seq<string>, names': seq<string>,
                    linkNames: seq<string>, target: nat)
    requires TunnelsAppended(before, after, names, linkNames) && names <= names'
    requires target < |names'|
    ensures TunnelsAppended(before, after + [target], names', linkNames + [names'[target]])
  {
    var ids := after[|before|..];
    assert (after + [target])[..|before|] == before;
    assert (after + [target])[|before|..] == ids + [target];
    forall j | 0 <= j < |ids|
      ensures names'[ids[j]] == names[ids[j]]
    {
    }
  }

  /** Two registrations in a row leave every rate as the first state had it. */
  lemma RatesChain(r0: seq<nat>, r1: seq<nat>, r2: seq<nat>)
    requires |r0| <= |r1| <= |r2|
    requires forall i :: 0 <= i < |r1| ==> r1[i] == RateOf(r0, i)
    requires forall i :: 0 <= i < |r2| ==> r2[i] == RateOf(r1, i)
    ensures forall i :: 0 <= i < |r2| ==> r2[i] == RateOf(r0, i)
  {
    forall i | 0 <= i < |r2|
      ensures r2[i] == RateOf(r0, i)
    {
      if i < |r1| {
        assert r2[i] == r1[i];
      }
    }
  }

  /** Two steps that leave every list but `valve`'s as the step before had
      it leave those lists as the first state had them. */
  lemma LinksChain(l0: seq<seq<nat>>, l1: seq<seq<nat>>, l2: seq<seq<nat>>, valve: nat)
    requires |l0| <= |l1| <= |l2|
    requires forall i :: 0 <= i < |l1| && i != valve ==> l1[i] == LinksOf(l0, i)
    requires forall i :: 0 <= i < |l2| && i != valve ==> l2[i] == LinksOf(l1, i)
    ensures forall i :: 0 <= i < |l2| && i != valve ==> l2[i] == LinksOf(l0, i)
  {
    forall i | 0 <= i < |l2| && i != valve
      ensures l2[i] == LinksOf(l0, i)
    {
      if i < |l1| {
        assert l2[i] == l1[i];
      }
    }
  }

  /** The state after registering the targets `ls` of `valve`, starting from
      `names0`, `rates0` and `links0`. */
  predicate TunnelsAdded(names0: seq<string>, rates0: seq<nat>, links0: seq<seq<nat>>, valve: nat,
                         ls: seq<string>, names: seq<string>, rates: seq<nat>, links: seq<seq<nat>>)
  {
    && names == Register(names0, ls)
    && |rates0| <= |rates| && |links0| <= |links| && valve < |links0|
    && (forall i :: 0 <= i < |rates| ==> rates[i] == RateOf(rates0, i))
    && (forall i :: 0 <= i < |links| && i != valve ==> links[i] == LinksOf(links0, i))
    && TunnelsAppended(links0[valve], links[valve], names, ls)
  }

  /** One more registered target keeps `TunnelsAdded`. */
  lemma TunnelsAddedStep(names0: seq<string>, rates0: seq<nat>, links0: seq<seq<nat>>, valve: nat, ls: seq<string>,
                         names1: seq<string>, rates1: seq<nat>, links1: seq<seq<nat>>,
                         x: string, target: nat, names2: seq<string>, rates2: seq<nat>, links2: seq<seq<nat>>)
    requires TunnelsAdded(names0, rates0, links0, valve, ls, names1, rates1, links1)
    requires names2 == Add(names1, x) && target < |names2| && names2[target] == x
    requires |rates1| <= |rates2| && |links1| <= |links2|
    requires forall i :: 0 <= i < |rates2| ==> rates2[i] == RateOf(rates1, i)
    requires forall i :: 0 <= i < |links2| && i != valve ==> links2[i] == LinksOf(links1, i)
    requires links2[valve] == links1[valve] + [target]
    ensures TunnelsAdded(names0, rates0, links0, valve, ls + [x], names2, rates2, links2)
  {
    assert (ls + [x])[..|ls|] == ls;
    TunnelsStep(links0[valve], links1[valve], names1, names2, ls, target);
    RatesChain(rates0, rates1, rates2);
    LinksChain(links0, links1, links2, valve);
  }

  // ---------------------------------------------------------------------------
  // The cave system

  class CaveSystem {
    var valveNames: seq<string>
    var rates: seq<nat>
    var links: seq<seq<nat>>
    var shortestPath: seq<seq<nat>>
    var count: nat

    /** Names are distinct, the per-valve tables have one entry per valve,
        tunnels lead to known valves, and "AA" is valve 0. */
    ghost predicate Valid()
      reads this`valveNames, this`rates, this`links, this`count
    {
      && |valveNames| == count && |rates| == count && |links| == count
      && count >= 1 && valveNames[0] == "AA"
      && Distinct(valveNames)
      && LinksValid(links)
    }

    ghost predicate HasMatrix()
      reads this
    {
      Valid() && IsMatrix(shortestPath, count)
    }

    /** The parser's first step: an empty system with "AA" registered. */
    constructor ()
      ensures Valid()
      ensures valveNames == ["AA"] && rates == [0] && links == [[]] && count == 1
    {
      valveNames, rates, links, shortestPath, count := ["AA"], [0], [[]], [], 1;
    }

    /** The index of a valve, registering an unknown name with rate 0 and no
        tunnels. */
    method GetIndex(name: string) returns (index: nat)
      requires Valid()
      modifies this`valveNames, this`rates, this`links, this`count
      ensures Valid()
      ensures index < count && valveNames[index] == name
      ensures valveNames == Add(old(valveNames), name)
      ensures old(count) <= count
      ensures forall i :: 0 <= i < count ==> rates[i] == RateOf(old(rates), i) && links[i] == LinksOf(old(links), i)
      ensures name in old(valveNames) ==>
        valveNames == old(valveNames) && rates == old(rates) && links == old(links) && count == old(count)
      ensures name !in old(valveNames) ==>
        && valveNames == old(valveNames) + [name] && rates == old(rates) + [0]
        && links == old(links) + [[]] && count == old(count) + 1 && index == old(count)
    {
      var i := 0;
      while i < |valveNames|
        invariant 0 <= i <= |valveNames|
        invariant forall j :: 0 <= j < i ==> valveNames[j] != name
      {
        if valveNames[i] == name {
          return i;
        }
        i := i + 1;
      }
      valveNames, rates, links, count := valveNames + [name], rates + [0], links + [[]], count + 1;
      index := count - 1;
    }

    /** One input line: valve `name` has `rate` and tunnels to `linkNames`;
        afterwards the distance matrix is rebuilt from scratch. */
    method ApplyLine(name: string, rate: nat, linkNames: seq<string>)
      requires Valid()
      modifies this
      ensures HasMatrix()
      ensures valveNames == Register(Add(old(valveNames), name), linkNames)
      ensures forall i :: 0 <= i < count ==>
        rates[i] == if valveNames[i] == name then rate else RateOf(old(rates), i)
      ensures forall i :: 0 <= i < count && valveNames[i] != name ==> links[i] == LinksOf(old(links), i)
      ensures forall i :: 0 <= i < count && valveNames[i] == name ==>
        TunnelsAppended(LinksOf(old(links), i), links[i], valveNames, linkNames)
      ensures forall s :: 0 <= s < count ==> ShortestRow(links, shortestPath[s], s)
    {
      var valve := GetIndex(name);
      rates := rates[valve := rate];
      AddTunnels(valve, linkNames);
      RebuildDistances();
    }

    /** The tunnel loop of one input line: each target is registered and
        appended, in order, to the tunnels of `valve`. */
    method AddTunnels(valve: nat, linkNames: seq<string>)
      requires Valid() && valve < count
      modifies this`valveNames, this`rates, this`links, this`count
      ensures Valid()
      ensures TunnelsAdded(old(valveNames), old(rates), old(links), valve, linkNames, valveNames, rates, links)
    {
      assert linkNames[..0] == [];
      var k := 0;
      while k < |linkNames|
        invariant 0 <= k <= |linkNames|
        invariant Valid() && valve < count
        invariant TunnelsAdded(old(valveNames), old(rates), old(links), valve, linkNames[..k], valveNames, rates, links)
      {
        ghost var names1, rates1, links1 := valveNames, rates, links;
        var target := AddTunnel(valve, linkNames[k]);
        TunnelsAddedStep(old(valveNames), old(rates), old(links), valve, linkNames[..k],
                         names1, rates1, links1, linkNames[k], target, valveNames, rates, links);
        assert linkNames[..k + 1] == linkNames[..k] + [linkNames[k]];
        k := k + 1;
      }
      assert linkNames[..k] == linkNames;
    }

    /** One tunnel of an input line: the target is registered and appended to
        the tunnels of `valve`. */
    method AddTunnel(valve: nat, linkName: string) returns (target: nat)
      requires Valid() && valve < count
      modifies this`valveNames, this`rates, this`links, this`count
      ensures Valid() && old(count) <= count
      ensures valveNames == Add(old(valveNames), linkName)
      ensures target < count && valveNames[target] == linkName
      ensures forall i :: 0 <= i < count ==> rates[i] == RateOf(old(rates), i)
      ensures forall i :: 0 <= i < count && i != valve ==> links[i] == LinksOf(old(links), i)
      ensures links[valve] == old(links)[valve] + [target]
    {
      target := GetIndex(linkName);
      LinksValidPush(links, valve, target);
      links := links[valve := links[valve] + [target]];
    }

    /** The distance matrix rebuilt from scratch: every entry starts at the
        sentinel and each row is relaxed from its source in turn. */
    method RebuildDistances()
      requires Valid()
      modifies this`shortestPath
      ensures HasMatrix()
      ensures forall s :: 0 <= s < count ==> ShortestRow(links, shortestPath[s], s)
    {
      var n := count;
      shortestPath := seq(n, _ => seq(n, _ => UNREACHABLE));
      var source := 0;
      while source < count
        invariant 0 <= source <= count
        invariant HasMatrix()
        invariant forall s :: 0 <= s < source ==> ShortestRow(links, shortestPath[s], s)
        invariant forall s :: source <= s < count ==> shortestPath[s] == seq(n, _ => UNREACHABLE)
      {
        ghost var initial := shortestPath[source];
        FindShortestPaths(source);
        forall u | 0 <= u < count
          ensures Relaxed(links, shortestPath[source], u)
        {
          if u != source && shortestPath[source][u] == initial[u] {
            assert shortestPath[source][u] == UNREACHABLE;
          }
        }
        source := source + 1;
      }
    }

    /** Distances from `source`: 0 to itself, then relaxation along tunnels. */
    method FindShortestPaths(source: nat)
      requires HasMatrix() && source < count
      requires RowSound(links, shortestPath[source], source)
      modifies this`shortestPath
      ensures HasMatrix()
      ensures shortestPath == old(shortestPath)[source := shortestPath[source]]
      ensures shortestPath[source][source] == 0
      ensures Below(old(shortestPath[source]), shortestPath[source])
      ensures forall v :: 0 <= v < count && (v == source || shortestPath[source][v] != old(shortestPath[source][v])) ==>
        Relaxed(links, shortestPath[source], v)
      ensures RowSound(links, shortestPath[source], source)
    {
      var initial := shortestPath[source];
      var newRow: seq<nat> := initial[source := 0];
      assert IsWalk(links, [source]);
      var row := RecFindPath(links, newRow, 0, source, source, [source]);
      forall v | 0 <= v < count && row[v] != initial[v]
        ensures Relaxed(links, row, v)
      {
        if v != source {
          assert row[v] != newRow[v];
        }
      }
      MatrixWithRow(shortestPath, count, source, row);
      shortestPath := shortestPath[source := row];
    }

    /** Depth-first relaxation of the row of `source` (the only row of the
        matrix it changes, passed in and returned): every valve linked from
        `current` that can be reached in `len + 1` tunnels, fewer than
        known, is lowered and explored. Entries only go down, and each one
        that changes ends above `len` and relaxed. */
    static method RecFindPath(links: seq<seq<nat>>, row: seq<nat>, len: nat, source: nat, current: nat,
                              ghost walk: seq<nat>)
      returns (row': seq<nat>)
      requires LinksValid(links) && |row| == |links| && source < |links| && current < |links|
      requires row[current] == len
      requires IsWalk(links, walk) && |walk| == len + 1 && walk[0] == source && walk[len] == current
      requires RowSound(links, row, source)
      ensures Below(row, row') && ChangedRelaxed(links, row, row', len)
      ensures Relaxed(links, row', current)
      ensures RowSound(links, row', source)
      decreases RowSum(row)
    {
      row' := row;
      var nextItems := links[current];
      var j := 0;
      while j < |nextItems|
        invariant 0 <= j <= |nextItems| && |row'| == |row|
        invariant row'[current] == len
        invariant Below(row, row') && ChangedRelaxed(links, row, row', len)
        invariant forall i :: 0 <= i < j ==> row'[nextItems[i]] <= len + 1
        invariant RowSound(links, row', source)
      {
        var next := nextItems[j];
        if len + 1 < row'[next] {
          ghost var before := row';
          var newRow: seq<nat> := row'[next := len + 1];
          RowSumDecreases(row, newRow, next);
          ExtendWalk(links, before, source, walk, next);
          row' := RecFindPath(links, newRow, len + 1, source, next, walk + [next]);
          StepKeepsRelaxed(links, row, before, row', next, len);
        }
        j := j + 1;
      }
    }

    /** The search from valve 0 ("AA") at minute 0 with every valve closed. */
    method FindMaxFlow() returns (maxFlow: nat)
      requires HasMatrix()
      ensures maxFlow == Best(rates, shortestPath, 0, seq(count, _ => false), 0, 0, 0)
    {
      var isOpen := new bool[count](_ => false);
      assert isOpen[..] == seq(count, _ => false);
      var history;
      maxFlow, history := RecFindMaxFlow(0, 0, isOpen, 0, 0, 0, []);
    }

    /** One node of the search. Opens each candidate in turn (recording it in
        `isOpen` and `history`), recurses, and undoes both; leaves raise the
        running maximum. */
    method RecFindMaxFlow(maxFlow: nat, minute: nat, isOpen: array<bool>, current: nat,
                          totalFlow: nat, currentFlow: nat, history: seq<nat>)
      returns (maxFlow': nat, history': seq<nat>)
      requires HasMatrix() && isOpen.Length == count && current < count && minute <= MINUTES
      modifies isOpen
      ensures isOpen[..] == old(isOpen[..])
      ensures history' == history
      ensures maxFlow' == Max(maxFlow, Best(rates, shortestPath, minute, old(isOpen[..]), current, totalFlow, currentFlow))
      decreases MINUTES - minute, 1
    {
      var left := 0;
      var i := 0;
      while i < count
        invariant 0 <= i <= count
        invariant left == CountLeft(rates, isOpen[..], i)
      {
        if !isOpen[i] && rates[i] > 0 {
          left := left + 1;
        }
        i := i + 1;
      }
      var total, m := totalFlow, minute;
      if left == 0 {
        total, m := totalFlow + currentFlow * (MINUTES - minute), MINUTES;
      }
      history' := history;
      if m == MINUTES {
        maxFlow' := if total > maxFlow then total else maxFlow;
        return;
      }
      maxFlow' := maxFlow;
      ghost var open0 := isOpen[..];
      var next := 0;
      while next < count
        invariant 0 <= next <= count
        invariant isOpen[..] == open0
        invariant history' == history
        invariant maxFlow' == Max(maxFlow, BestMove(rates, shortestPath, minute, open0, current, totalFlow, currentFlow, next))
      {
        maxFlow', history' := TryMove(maxFlow', minute, isOpen, current, totalFlow, currentFlow, history', next);
        next := next + 1;
      }
    }

    /** One turn of the loop over candidates in `rec_find_max_flow`: when
        `next` is closed with a positive rate, move there and open it,
        search on, then close it again and drop it from the history. */
    method TryMove(maxFlow: nat, minute: nat, isOpen: array<bool>, current: nat,
                   totalFlow: nat, currentFlow: nat, history: seq<nat>, next: nat)
      returns (maxFlow': nat, history': seq<nat>)
      requires HasMatrix() && isOpen.Length == count && current < count && next < count && minute < MINUTES
      modifies isOpen
      ensures isOpen[..] == old(isOpen[..])
      ensures history' == history
      ensures maxFlow' == if IsCandidate(rates, old(isOpen[..]), next)
        then Max(maxFlow, Child(rates, shortestPath, minute, old(isOpen[..]), current, totalFlow, currentFlow, next))
        else maxFlow
      decreases MINUTES - minute, 0
    {
      maxFlow', history' := maxFlow, history;
      if !isOpen[next] && rates[next] > 0 {
        ghost var open0 := isOpen[..];
        var minPassed := shortestPath[current][next] + 1;
        var nextMinute := Min(MINUTES, minute + minPassed);
        var passed := nextMinute - minute;
        var total' := totalFlow + passed * currentFlow;
        history' := history' + [next];
        var flow' := currentFlow + rates[next];
        isOpen[next] := true;
        assert isOpen[..] == open0[next := true];
        maxFlow', history' := RecFindMaxFlow(maxFlow', nextMinute, isOpen, next, total', flow', history');
        history' := history'[..|history'| - 1];
        isOpen[next] := false;
        assert isOpen[..] == open0;
      }
    }
  }
}
