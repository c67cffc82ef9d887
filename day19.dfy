/** Geode robots (day 19): a depth-first search over which robot to build
    next. Resources are four counters (ore, clay, obsidian, geode); a state
    holds the minute, the production per minute and the stock. The search waits
    until the next robot is affordable, builds it one minute later, filters out
    robots that can never help, and prunes states whose optimistic geode bound
    is below the best result found so far. */
module Day19 {
  import opened Common
  import opened Util

  const ORE: nat := 0
  const CLAY: nat := 1
  const OBSIDIAN: nat := 2
  const GEODE: nat := 3
  const ELEMENTS: nat := 4

  type Resources = r: seq<nat> | |r| == 4 witness [0, 0, 0, 0]

  const Empty: Resources := [0, 0, 0, 0]
  /** One ore robot to begin with. */
  const InitialProduction: Resources := [1, 0, 0, 0]

  /** Element-wise sum. */
  function Plus(a: Resources, b: Resources): Resources
  {
    seq(ELEMENTS, i requires 0 <= i < ELEMENTS => a[i] + b[i])
  }

  /** `a` holds at least `b` of every element. */
  predicate Covers(a: Resources, b: Resources)
  {
    forall i :: 0 <= i < ELEMENTS ==> a[i] >= b[i]
  }

  /** Element-wise difference, defined when nothing would go below zero. */
  function Minus(a: Resources, b: Resources): Resources
    requires Covers(a, b)
  {
    seq(ELEMENTS, i requires 0 <= i < ELEMENTS => a[i] - b[i])
  }

  /** `+` on resources: a loop over the four elements. */
  method Add(a: Resources, b: Resources) returns (res: Resources)
    ensures res == Plus(a, b)
    ensures Covers(res, a) && Covers(res, b)
  {
    res := a;
    for i := 0 to ELEMENTS
      invariant forall k :: 0 <= k < i ==> res[k] == a[k] + b[k]
      invariant forall k :: i <= k < ELEMENTS ==> res[k] == a[k]
    {
      res := res[i := res[i] + b[i]];
    }
  }

  /** `-` on resources; the unsigned counters may not go below zero. */
  method Sub(a: Resources, b: Resources) returns (res: Resources)
    requires Covers(a, b)
    ensures res == Minus(a, b)
    ensures Plus(res, b) == a
  {
    res := a;
    for i := 0 to ELEMENTS
      invariant forall k :: 0 <= k < i ==> res[k] == a[k] - b[k]
      invariant forall k :: i <= k < ELEMENTS ==> res[k] == a[k]
    {
      res := res[i := res[i] - b[i]];
    }
  }

  /** Taking away what was added gives back the original stock. */
  lemma MinusPlus(a: Resources, b: Resources)
    ensures Covers(Plus(a, b), b) && Minus(Plus(a, b), b) == a
  {
  }

  // ---------------------------------------------------------------------------
  // Blueprints

  datatype Action = Action(required: Resources, increase: Resources)

  datatype Blueprint = Blueprint(actions: seq<Action>, maxRequired: Resources)

  /** A robot of `element` costing `cost`. */
  function Robot(element: nat, cost: Resources): Action
    requires element < ELEMENTS
  {
    Action(cost, Empty[element := 1])
  }

  /** The four robots of a blueprint in the order the search tries them:
      geode, obsidian, clay, ore. */
  function Robots(oreOre: nat, clayOre: nat, obsOre: nat, obsClay: nat, geodeOre: nat, geodeObs: nat): seq<Action>
  {
    [ Robot(GEODE, [geodeOre, 0, geodeObs, 0]),
      Robot(OBSIDIAN, [obsOre, obsClay, 0, 0]),
      Robot(CLAY, [clayOre, 0, 0, 0]),
      Robot(ORE, [oreOre, 0, 0, 0]) ]
  }

  /** Every robot adds one to exactly one production counter. */
  predicate WellFormed(bp: Blueprint)
  {
    forall k :: 0 <= k < |bp.actions| ==>
      bp.actions[k].increase in {[1, 0, 0, 0], [0, 1, 0, 0], [0, 0, 1, 0], [0, 0, 0, 1]}
  }

  /** `m[e]` is the largest cost in element `e` over all actions (0 if none). */
  predicate IsMaxRequired(actions: seq<Action>, m: Resources)
  {
    forall e :: 0 <= e < ELEMENTS ==>
      && (forall k :: 0 <= k < |actions| ==> actions[k].required[e] <= m[e])
      && (m[e] == 0 || exists k :: 0 <= k < |actions| && actions[k].required[e] == m[e])
  }

  /** The maximum-cost vector, element by element over the actions. */
  method MaxRequired(actions: seq<Action>) returns (m: Resources)
    ensures IsMaxRequired(actions, m)
  {
    m := Empty;
    for e := 0 to ELEMENTS
      invariant forall f :: e <= f < ELEMENTS ==> m[f] == 0
      invariant forall f :: 0 <= f < e ==>
        && (forall k :: 0 <= k < |actions| ==> actions[k].required[f] <= m[f])
        && (m[f] == 0 || exists k :: 0 <= k < |actions| && actions[k].required[f] == m[f])
    {
      for j := 0 to |actions|
        invariant forall f :: e < f < ELEMENTS ==> m[f] == 0
        invariant forall f :: 0 <= f < e ==>
          && (forall k :: 0 <= k < |actions| ==> actions[k].required[f] <= m[f])
          && (m[f] == 0 || exists k :: 0 <= k < |actions| && actions[k].required[f] == m[f])
        invariant forall k :: 0 <= k < j ==> actions[k].required[e] <= m[e]
        invariant m[e] == 0 || exists k :: 0 <= k < j && actions[k].required[e] == m[e]
      {
        if actions[j].required[e] > m[e] {
          m := m[e := actions[j].required[e]];
        }
      }
    }
  }

  /** `Blueprint::parse`: the six costs sit at fixed token positions; a
      missing token or a token that is not a number is a panic (None). */
  method ParseBlueprint(line: string) returns (bp: Option<Blueprint>)
    ensures bp.Some? <==>
      var t := Tokenize(line);
      |t| > 30 && ParseNat(t[6]).Some? && ParseNat(t[12]).Some? && ParseNat(t[18]).Some?
      && ParseNat(t[21]).Some? && ParseNat(t[27]).Some? && ParseNat(t[30]).Some?
    ensures bp.Some? ==>
      var t := Tokenize(line);
      && bp.value.actions == Robots(ParseNat(t[6]).value, ParseNat(t[12]).value, ParseNat(t[18]).value,
                                    ParseNat(t[21]).value, ParseNat(t[27]).value, ParseNat(t[30]).value)
      && IsMaxRequired(bp.value.actions, bp.value.maxRequired)
      && WellFormed(bp.value)
  {
    var t := Tokenize(line);
    if |t| <= 30 {
      return None;
    }
    var oreOre, clayOre, obsOre := ParseNat(t[6]), ParseNat(t[12]), ParseNat(t[18]);
    var obsClay, geodeOre, geodeObs := ParseNat(t[21]), ParseNat(t[27]), ParseNat(t[30]);
    if oreOre.None? || clayOre.None? || obsOre.None? || obsClay.None? || geodeOre.None? || geodeObs.None? {
      return None;
    }
    var actions := Robots(oreOre.value, clayOre.value, obsOre.value, obsClay.value, geodeOre.value, geodeObs.value);
    var m := MaxRequired(actions);
    RobotsWellFormed(oreOre.value, clayOre.value, obsOre.value, obsClay.value, geodeOre.value, geodeObs.value, m);
    bp := Some(Blueprint(actions, m));
  }

  /** Each of the four robots adds one to its own production counter. */
  lemma RobotsWellFormed(oreOre: nat, clayOre: nat, obsOre: nat, obsClay: nat, geodeOre: nat, geodeObs: nat, m: Resources)
    ensures WellFormed(Blueprint(Robots(oreOre, clayOre, obsOre, obsClay, geodeOre, geodeObs), m))
  {
    assert Empty[GEODE := 1] == [0, 0, 0, 1] && Empty[OBSIDIAN := 1] == [0, 0, 1, 0];
    assert Empty[CLAY := 1] == [0, 1, 0, 0] && Empty[ORE := 1] == [1, 0, 0, 0];
  }

  // ---------------------------------------------------------------------------
  // Search states and what the search computes

  datatype SearchState = SearchState(minute: nat, production: Resources, resources: Resources)

  /** The start: minute 0, one ore robot, an empty stock. */
  const Initial: SearchState := SearchState(0, InitialProduction, Empty)

  /** One minute of production. */
  function Tick(s: SearchState): SearchState
  {
    s.(minute := s.minute + 1, resources := Plus(s.resources, s.production))
  }

  /** Building a robot: pay its cost, raise production. */
  function Build(s: SearchState, a: Action): SearchState
    requires Covers(s.resources, a.required)
  {
    s.(resources := Minus(s.resources, a.required), production := Plus(s.production, a.increase))
  }

  /** The "never useful" filter: an action is rejected when it needs an element
      (other than geode) nobody produces yet, or when it raises the production
      of an element (other than geode) that already matches the largest cost in
      that element. */
  predicate Useful(maxRequired: Resources, production: Resources, a: Action)
  {
    forall i :: 0 <= i < GEODE ==>
      !(a.required[i] > 0 && production[i] == 0) && !(a.increase[i] > 0 && production[i] == maxRequired[i])
  }

  /** What waiting for an action leads to: the deadline (with the geode stock
      at that minute), or the state just after building. */
  datatype Outcome = Finished(geodes: nat) | Ready(state: SearchState)

  /** Minutes pass until the action is affordable; one more minute passes and
      the robot is built. Reaching the deadline on any of these minutes ends
      the branch. */
  function Await(T: nat, s: SearchState, a: Action): (r: Outcome)
    requires s.minute < T
    ensures r.Ready? ==> s.minute < r.state.minute < T
    decreases T - s.minute
  {
    var s1 := Tick(s);
    if s1.minute == T then Finished(s1.resources[GEODE])
    else if Covers(s.resources, a.required) then Ready(Build(s1, a))
    else Await(T, s1, a)
  }

  /** The best geode count over all leaves below `s`, without pruning. */
  function Explore(bp: Blueprint, T: nat, s: SearchState): nat
    requires s.minute < T
    decreases T - s.minute, |bp.actions| + 1
  {
    ExploreActions(bp, T, s, |bp.actions|)
  }

  /** The best leaf over the first `k` actions (0 when there is none). */
  function ExploreActions(bp: Blueprint, T: nat, s: SearchState, k: nat): nat
    requires s.minute < T && k <= |bp.actions|
    decreases T - s.minute, k
  {
    if k == 0 then 0
    else Max(ExploreActions(bp, T, s, k - 1), ActionValue(bp, T, s, bp.actions[k - 1])) as nat
  }

  /** The best leaf reached by waiting for action `a` first. */
  function ActionValue(bp: Blueprint, T: nat, s: SearchState, a: Action): nat
    requires s.minute < T
    decreases T - s.minute, 0
  {
    if !Useful(bp.maxRequired, s.production, a) then 0
    else
      match Await(T, s, a)
      case Finished(g) => g
      case Ready(s') => Explore(bp, T, s')
  }

  // ---------------------------------------------------------------------------
  // The optimistic bound

  /** 0 + 1 + ... + (n - 1). */
  function Tri(n: nat): nat
  {
    if n == 0 then 0 else Tri(n - 1) + (n - 1)
  }

  lemma {:induction false} TriClosedForm(n: nat)
    ensures 2 * Tri(n) == n * (n - 1)
  {
    if n > 0 {
      TriClosedForm(n - 1);
    }
  }

  /** The geodes reached if a geode robot were added every remaining minute:
      stock + rem * production + rem * (rem - 1) / 2. */
  function Bound(T: nat, s: SearchState): nat
  {
    var rem := if s.minute < T then T - s.minute else 0;
    s.resources[GEODE] + rem * s.production[GEODE] + Tri(rem)
  }

  lemma BoundStep(geodes: nat, prod: nat, rem: nat)
    requires rem > 0
    ensures (geodes + prod) + (rem - 1) * (prod + 1) + Tri(rem - 1) == geodes + rem * prod + Tri(rem)
  {
    assert rem * prod == prod + (rem - 1) * prod;
    assert (rem - 1) * (prod + 1) == (rem - 1) * prod + (rem - 1);
  }

  lemma BoundTick(T: nat, s: SearchState)
    requires s.minute < T
    ensures Bound(T, Tick(s)) + (T - s.minute - 1) == Bound(T, s)
  {
    var rem := T - s.minute;
    var p := s.production[GEODE];
    assert rem * p == p + (rem - 1) * p;
  }

  lemma BoundBuild(T: nat, s: SearchState, a: Action)
    requires Covers(s.resources, a.required) && s.minute < T
    ensures Bound(T, Build(s, a)) <= Bound(T, s) + (T - s.minute) * a.increase[GEODE]
  {
    var rem := T - s.minute;
    assert rem * (s.production[GEODE] + a.increase[GEODE]) == rem * s.production[GEODE] + rem * a.increase[GEODE];
  }

  /** Waiting never beats the bound: a leaf's geodes and the bound of the
      state after building are both at most the bound now. */
  lemma {:induction false} AwaitBound(T: nat, s: SearchState, a: Action)
    requires s.minute < T && a.increase[GEODE] <= 1
    ensures match Await(T, s, a)
            case Finished(g) => g <= Bound(T, s)
            case Ready(s') => Bound(T, s') <= Bound(T, s)
    decreases T - s.minute
  {
    var s1 := Tick(s);
    BoundTick(T, s);
    if s1.minute == T {
    } else if Covers(s.resources, a.required) {
      BoundBuild(T, s1, a);
    } else {
      AwaitBound(T, s1, a);
    }
  }

  /** The bound used for pruning is sound: no leaf below `s` has more geodes. */
  lemma {:induction false} ExploreBound(bp: Blueprint, T: nat, s: SearchState)
    requires WellFormed(bp) && s.minute < T
    ensures Explore(bp, T, s) <= Bound(T, s)
    decreases T - s.minute, |bp.actions| + 1
  {
    ExploreActionsBound(bp, T, s, |bp.actions|);
  }

  lemma {:induction false} ExploreActionsBound(bp: Blueprint, T: nat, s: SearchState, k: nat)
    requires WellFormed(bp) && s.minute < T && k <= |bp.actions|
    ensures ExploreActions(bp, T, s, k) <= Bound(T, s)
    decreases T - s.minute, k
  {
    if k > 0 {
      ExploreActionsBound(bp, T, s, k - 1);
      var a := bp.actions[k - 1];
      if Useful(bp.maxRequired, s.production, a) {
        AwaitBound(T, s, a);
        match Await(T, s, a)
        case Finished(g) =>
        case Ready(s') =>
          ExploreBound(bp, T, s');
      }
    }
  }

  // ---------------------------------------------------------------------------
  // The search

  /** `can_apply`: the stock covers the cost in every element. */
  method CanApply(state: SearchState, action: Action) returns (b: bool)
    ensures b <==> Covers(state.resources, action.required)
  {
    for i := 0 to ELEMENTS
      invariant forall k :: 0 <= k < i ==> state.resources[k] >= action.required[k]
    {
      if state.resources[i] < action.required[i] {
        return false;
      }
    }
    return true;
  }

  /** `apply`: pay the cost and raise production, without underflow. */
  method Apply(state: SearchState, action: Action) returns (state': SearchState)
    requires Covers(state.resources, action.required)
    ensures state' == Build(state, action)
    ensures Plus(state'.resources, action.required) == state.resources
  {
    var resources := Sub(state.resources, action.required);
    var production := Add(state.production, action.increase);
    state' := state.(resources := resources, production := production);
  }

  class Search {
    const blueprint: Blueprint
    const timeAvailable: nat
    var maxGeodes: nat

    constructor (blueprint: Blueprint, timeAvailable: nat)
      ensures this.blueprint == blueprint && this.timeAvailable == timeAvailable && maxGeodes == 0
    {
      this.blueprint := blueprint;
      this.timeAvailable := timeAvailable;
      maxGeodes := 0;
    }

    /** One minute of production. At the deadline the geode stock is offered
        to the best-so-far and false is returned. */
    method TimeStep(state: SearchState) returns (state': SearchState, running: bool)
      modifies this`maxGeodes
      ensures state' == Tick(state)
      ensures running <==> state'.minute != timeAvailable
      ensures maxGeodes == if running then old(maxGeodes) else Max(old(maxGeodes), state'.resources[GEODE])
    {
      var resources := Add(state.resources, state.production);
      state' := state.(minute := state.minute + 1, resources := resources);
      if state'.minute == timeAvailable {
        if state'.resources[GEODE] > maxGeodes {
          maxGeodes := state'.resources[GEODE];
        }
        running := false;
      } else {
        running := true;
      }
    }

    /** `should_eventually_apply`: the filter, checked element by element
        below geode. */
    method ShouldEventuallyApply(state: SearchState, action: Action) returns (b: bool)
      ensures b <==> Useful(blueprint.maxRequired, state.production, action)
    {
      for i := 0 to GEODE
        invariant forall k :: 0 <= k < i ==>
          !(action.required[k] > 0 && state.production[k] == 0)
          && !(action.increase[k] > 0 && state.production[k] == blueprint.maxRequired[k])
      {
        if action.required[i] > 0 && state.production[i] == 0 {
          return false;
        }
        if action.increase[i] > 0 && state.production[i] == blueprint.maxRequired[i] {
          return false;
        }
      }
      return true;
    }

    /** `max_possible_geodes`: let the geode production grow by one every
        remaining minute. */
    method MaxPossibleGeodes(state: SearchState) returns (geodes: nat)
      ensures geodes == Bound(timeAvailable, state)
      ensures state.minute < timeAvailable ==>
        var rem := timeAvailable - state.minute;
        2 * geodes == 2 * state.resources[GEODE] + 2 * rem * state.production[GEODE] + rem * (rem - 1)
    {
      var minute := state.minute;
      geodes := state.resources[GEODE];
      var prod := state.production[GEODE];
      while minute < timeAvailable
        invariant minute >= state.minute
        invariant minute > timeAvailable ==> minute == state.minute && geodes == Bound(timeAvailable, state)
        invariant minute <= timeAvailable ==>
          geodes + (timeAvailable - minute) * prod + Tri(timeAvailable - minute) == Bound(timeAvailable, state)
        decreases timeAvailable - minute
      {
        BoundStep(geodes, prod, timeAvailable - minute);
        geodes := geodes + prod;
        prod := prod + 1;
        minute := minute + 1;
      }
      if state.minute < timeAvailable {
        TriClosedForm(timeAvailable - state.minute);
      }
    }

    /** The pruned depth-first search. Its result equals the unpruned search:
        a state is abandoned only when its bound is below the best-so-far,
        and no leaf below it could beat that. */
    method FindMaxGeodes(state: SearchState)
      requires WellFormed(blueprint) && state.minute < timeAvailable
      modifies this`maxGeodes
      ensures maxGeodes == Max(old(maxGeodes), Explore(blueprint, timeAvailable, state))
      decreases timeAvailable - state.minute
    {
      var maxPossible := MaxPossibleGeodes(state);
      if maxPossible < maxGeodes {
        ExploreBound(blueprint, timeAvailable, state);
        return;
      }
      ghost var entry := maxGeodes;
      label Actions:
      for i := 0 to |blueprint.actions|
        invariant maxGeodes == Max(entry, ExploreActions(blueprint, timeAvailable, state, i))
      {
        var action := blueprint.actions[i];
        var useful := ShouldEventuallyApply(state, action);
        if useful {
          ghost var before := maxGeodes;
          var st := state;
          var running;
          var affordable := CanApply(st, action);
          while !affordable
            invariant state.minute <= st.minute < timeAvailable
            invariant Await(timeAvailable, st, action) == Await(timeAvailable, state, action)
            invariant affordable <==> Covers(st.resources, action.required)
            invariant maxGeodes == before
            decreases timeAvailable - st.minute
          {
            st, running := TimeStep(st);
            if !running {
              continue Actions;
            }
            affordable := CanApply(st, action);
          }
          st, running := TimeStep(st);
          if !running {
            continue Actions;
          }
          st := Apply(st, action);
          FindMaxGeodes(st);
        }
      }
    }
  }

  /** `Search::run`: the best geode count within `timeAvailable` minutes from
      the start state; it is at most the bound of the start state. */
  method Run(blueprint: Blueprint, timeAvailable: nat) returns (maxGeodes: nat)
    requires WellFormed(blueprint) && timeAvailable >= 1
    ensures maxGeodes == Explore(blueprint, timeAvailable, Initial)
    ensures maxGeodes <= Tri(timeAvailable)
  {
    var search := new Search(blueprint, timeAvailable);
    search.FindMaxGeodes(Initial);
    maxGeodes := search.maxGeodes;
    ExploreBound(blueprint, timeAvailable, Initial);
  }
}
