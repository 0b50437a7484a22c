/** What the estimated path means: looking only at the gcd grid loses nothing
    against looking every second, the path accounts for every replica, and no
    rolling period ever sees more change than its policy allows. */
module BehaviorTheorems {
  import opened Common
  import opened BehaviorPath

  /** Every change happened on the grid through `now`, before it. */
  ghost predicate OnGrid(history: seq<Event>, now: int, tick: int)
    requires tick > 0
  {
    forall i | 0 <= i < |history| :: history[i].time < now && Divides(tick, now - history[i].time)
  }

  ghost predicate PeriodsOnGrid(policies: seq<Policy>, tick: int)
    requires tick > 0
  {
    forall i | 0 <= i < |policies| :: policies[i].period > 0 && Divides(tick, policies[i].period)
  }

  // ------------------------------------------- between two points of the grid

  /** Two grid distances that differ by less than a tick lie on one side of a
      multiple of the tick. */
  lemma SameSide(tick: int, age: int, period: int, ahead: int)
    requires tick > 0 && Divides(tick, age) && Divides(tick, period) && 0 <= ahead < tick
    ensures age < period <==> age + ahead < period
  {
    if age < period <= age + ahead {
      DividesSum(tick, period, age);
    }
  }

  /** A period sees the same changes throughout a tick. */
  lemma {:induction false} WindowHolds(history: seq<Event>, now: int, ahead: int, period: int, tick: int)
    requires tick > 0 && 0 <= ahead < tick && Divides(tick, period)
    requires OnGrid(history, now, tick)
    ensures Recent(history, now + ahead, period) == Recent(history, now, period)
  {
    if history != [] {
      var last := history[|history| - 1];
      WindowHolds(history[..|history| - 1], now, ahead, period, tick);
      SameSide(tick, now - last.time, period, ahead);
    }
  }

  /** Starting the rate limit from `further`, itself on the way, moves each
      policy's bound no nearer and leaves the rest as it was. */
  function Onward(up: bool, further: int, limit: Option<int>): Option<int> {
    if limit.None? then None else Some(Toward(up, further, limit.value))
  }

  ghost predicate SameBaselines(policies: seq<Policy>, r: int, h: seq<Event>, t: int,
                                r': int, h': seq<Event>, t': int) {
    forall i | 0 <= i < |policies| ::
      Baseline(r, Recent(h, t, policies[i].period)) == Baseline(r', Recent(h', t', policies[i].period))
  }

  lemma {:induction false} LimitOnward(policies: seq<Policy>, up: bool, select: Select, bound: Bound,
                                       r: int, h: seq<Event>, t: int, r': int, h': seq<Event>, t': int)
    requires SameBaselines(policies, r, h, t, r', h', t')
    requires Toward(up, r, r') == r'
    ensures Limit(r', up, select, policies, t', h', bound)
         == Onward(up, r', Limit(r, up, select, policies, t, h, bound))
  {
    if policies != [] {
      var rest, p := policies[..|policies| - 1], policies[|policies| - 1];
      assert SameBaselines(rest, r, h, t, r', h', t');
      LimitOnward(rest, up, select, bound, r, h, t, r', h', t');
      assert Baseline(r, Recent(h, t, p.period)) == Baseline(r', Recent(h', t', p.period));
    }
  }

  /** A selected limit never lies behind the replicas it starts from. */
  lemma {:induction false} LimitNotBehind(policies: seq<Policy>, up: bool, select: Select, bound: Bound,
                                          r: int, h: seq<Event>, t: int)
    ensures var limit := Limit(r, up, select, policies, t, h, bound);
            limit.Some? ==> Toward(up, r, limit.value) == limit.value
  {
    if policies != [] {
      LimitNotBehind(policies[..|policies| - 1], up, select, bound, r, h, t);
    }
  }

  /** The state after the loop looked at `now`. */
  ghost function Looked(u: Setup, s: State, now: int): State
    requires LimitAt(u, s, now).Some?
  {
    var next := Next(u, LimitAt(u, s, now).value);
    if next == s.replicas then s else Moved(s, next, now)
  }

  /** The loop ends here: past the last second, at the target, or with no policy
      that bounds anything. */
  ghost predicate Ends(u: Setup, s: State, now: int, last: int) {
    now > last || s.replicas == u.desired || LimitAt(u, s, now).None?
  }

  /** The loop leaves after this step: the change came too late for an int32. */
  ghost predicate Leaves(u: Setup, s: State, now: int)
    requires LimitAt(u, s, now).Some?
  {
    now > MAX_INT32 && Looked(u, s, now) != s
  }

  lemma OneStep(u: Setup, s: State, now: int, last: int, tick: int)
    requires tick > 0
    ensures Ends(u, s, now, last) ==> Simulate(u, s, now, last, tick) == s
    ensures !Ends(u, s, now, last) && Leaves(u, s, now) ==>
              Simulate(u, s, now, last, tick) == Looked(u, s, now)
    ensures !Ends(u, s, now, last) && !Leaves(u, s, now) ==>
              Simulate(u, s, now, last, tick) == Simulate(u, Looked(u, s, now), now + tick, last, tick)
  {
    hide LimitAt, Next;
    if !Ends(u, s, now, last) && Next(u, LimitAt(u, s, now).value) != s.replicas {
      assert Looked(u, s, now).replicas != s.replicas;
    }
  }

  lemma LookedOnGrid(u: Setup, s: State, now: int, tick: int)
    requires tick > 0 && OnGrid(s.history, now, tick) && LimitAt(u, s, now).Some?
    ensures OnGrid(Looked(u, s, now).history, now + tick, tick)
  {
    forall i | 0 <= i < |s.history| ensures Divides(tick, now + tick - s.history[i].time) {
      DividesTimes(tick, tick, 1);
      DividesSum(tick, now - s.history[i].time, tick);
    }
    DividesTimes(tick, tick, 1);
  }

  lemma AtLeastATick(tick: int, period: int)
    requires tick > 0 && period > 0 && Divides(tick, period)
    ensures period >= tick
  {
    assert period == tick * (period / tick);
  }

  /** What a period started from is the same as before the change just made. */
  lemma SameBaseline(u: Setup, s: State, now: int, ahead: int, tick: int, period: int)
    requires tick > 0 && 0 < ahead < tick
    requires OnGrid(s.history, now, tick) && period > 0 && Divides(tick, period)
    requires LimitAt(u, s, now).Some?
    ensures var after := Looked(u, s, now);
            after.replicas - Recent(after.history, now + ahead, period)
              == s.replicas - Recent(s.history, now, period)
  {
    hide LimitAt, Next, OnGrid, Divides;
    var after := Looked(u, s, now);
    WindowHolds(s.history, now, ahead, period, tick);
    AtLeastATick(tick, period);
    if after != s {
      assert after.history[..|after.history| - 1] == s.history;
    }
  }

  /** Between two points of the grid there is nothing to do: the limit found at
      the first still is the number of replicas. */
  lemma NothingBetween(u: Setup, s: State, now: int, ahead: int, tick: int)
    requires tick > 0 && 0 < ahead < tick
    requires OnGrid(s.history, now, tick) && PeriodsOnGrid(u.policies, tick)
    requires LimitAt(u, s, now).Some? && Looked(u, s, now).replicas != u.desired
    ensures LimitAt(u, Looked(u, s, now), now + ahead) == Some(Looked(u, s, now).replicas)
    ensures Next(u, Looked(u, s, now).replicas) == Looked(u, s, now).replicas
  {
    var after := Looked(u, s, now);
    var limit := LimitAt(u, s, now).value;
    assert after.replicas == limit && Next(u, limit) == limit;
    LimitNotBehind(u.policies, u.up, u.select, u.bound, s.replicas, s.history, now);
    assert SameBaselines(u.policies, s.replicas, s.history, now, limit, after.history, now + ahead) by {
      hide OnGrid, LimitAt, Looked, Recent;
      forall i | 0 <= i < |u.policies|
        ensures Baseline(s.replicas, Recent(s.history, now, u.policies[i].period))
             == Baseline(limit, Recent(after.history, now + ahead, u.policies[i].period))
      {
        SameBaseline(u, s, now, ahead, tick, u.policies[i].period);
      }
    }
    hide Looked, Recent, Limit, OnGrid, PeriodsOnGrid, SameBaselines;
    LimitOnward(u.policies, u.up, u.select, u.bound, s.replicas, s.history, now, limit, after.history, now + ahead);
  }

  /** A finer clock idles until the next point of the grid. */
  lemma {:induction false} FineClockIdles(u: Setup, s: State, now: int, ahead: int, last: int, tick: int, fine: int)
    requires tick > 0 && fine > 0 && 0 < ahead <= tick && Divides(fine, tick - ahead)
    requires OnGrid(s.history, now, tick) && PeriodsOnGrid(u.policies, tick)
    requires LimitAt(u, s, now).Some?
    ensures Simulate(u, Looked(u, s, now), now + ahead, last, fine)
         == Simulate(u, Looked(u, s, now), now + tick, last, fine)
    decreases tick - ahead
  {
    var after := Looked(u, s, now);
    if ahead < tick && after.replicas != u.desired && now + ahead <= last {
      NothingBetween(u, s, now, ahead, tick);
      assert fine <= tick - ahead;
      DividesTimes(fine, fine, 1);
      DividesSum(fine, tick - ahead, fine);
      FineClockIdles(u, s, now, ahead + fine, last, tick, fine);
    }
  }

  lemma FineStepFits(tick: int, fine: int)
    requires tick > 0 && fine > 0 && Divides(fine, tick)
    ensures fine <= tick && Divides(fine, tick - fine)
  {
    DividesTimes(fine, fine, 1);
    DividesSum(fine, tick, fine);
  }

  /** Looking at the grid of any common divisor of the periods, down to every
      second, finds the same path. */
  lemma {:induction false} GridLosesNothing(u: Setup, s: State, now: int, last: int, tick: int, fine: int)
    requires tick > 0 && fine > 0 && Divides(fine, tick)
    requires OnGrid(s.history, now, tick) && PeriodsOnGrid(u.policies, tick)
    ensures Simulate(u, s, now, last, tick) == Simulate(u, s, now, last, fine)
    decreases last - now
  {
    hide Simulate, LimitAt, Looked, Leaves, OnGrid, PeriodsOnGrid;
    OneStep(u, s, now, last, tick);
    OneStep(u, s, now, last, fine);
    if !Ends(u, s, now, last) && !Leaves(u, s, now) {
      var after := Looked(u, s, now);
      LookedOnGrid(u, s, now, tick);
      GridLosesNothing(u, after, now + tick, last, tick, fine);
      FineStepFits(tick, fine);
      FineClockIdles(u, s, now, fine, last, tick, fine);
    }
  }

  // --------------------------------------------------------- the whole estimate

  function Changes(history: seq<Event>): int {
    if history == [] then 0 else Changes(history[..|history| - 1]) + history[|history| - 1].change
  }

  predicate Forward(up: bool, change: int) {
    if up then change > 0 else change < 0
  }

  ghost predicate AllForward(up: bool, history: seq<Event>) {
    forall i | 0 <= i < |history| :: Forward(up, history[i].change)
  }

  /** The replicas lie between the start and the target. */
  predicate Within(up: bool, from: int, replicas: int, target: int) {
    if up then from <= replicas <= target else from >= replicas >= target
  }

  ghost predicate Ordered(history: seq<Event>, before: int) {
    && (forall i | 0 <= i < |history| :: history[i].time < before)
    && (forall i, j | 0 <= i < j < |history| :: history[i].time < history[j].time)
  }

  ghost predicate Tells(from: int, history: seq<Event>, path: seq<Point>, i: nat)
    requires i < |history| && i < |path|
  {
    path[i] == Point(history[i].time, from + Changes(history[..i + 1]))
  }

  /** The path is the running total of the changes, at times an int32 holds;
      only a last change beyond that is missing. */
  ghost predicate Told(from: int, s: State) {
    && |s.path| <= |s.history|
    && (forall i | 0 <= i < |s.path| :: s.path[i].after <= MAX_INT32 && Tells(from, s.history, s.path, i))
    && (forall i | |s.path| <= i < |s.history| :: i == |s.history| - 1 && s.history[i].time > MAX_INT32)
  }

  /** Every replica is accounted for: changes towards the target, in time order,
      that never overshoot it. */
  ghost predicate Balanced(u: Setup, from: int, s: State, before: int) {
    && s.replicas == from + Changes(s.history)
    && Within(u.up, from, s.replicas, u.desired)
    && Ordered(s.history, before)
    && AllForward(u.up, s.history)
  }

  lemma LookedMovesForward(u: Setup, s: State, now: int)
    requires LimitAt(u, s, now).Some? && Within(u.up, s.replicas, u.desired, u.desired)
    ensures Looked(u, s, now) == s || Forward(u.up, Looked(u, s, now).replicas - s.replicas)
    ensures Within(u.up, s.replicas, Looked(u, s, now).replicas, u.desired)
    ensures Looked(u, s, now) == s || Looked(u, s, now).history ==
              s.history + [Event(now, Looked(u, s, now).replicas - s.replicas)]
  {
    LimitNotBehind(u.policies, u.up, u.select, u.bound, s.replicas, s.history, now);
  }

  lemma MoveBalances(u: Setup, from: int, s: State, now: int)
    requires Balanced(u, from, s, now) && LimitAt(u, s, now).Some?
    ensures Balanced(u, from, Looked(u, s, now), now + 1)
  {
    hide LimitAt, Looked;
    LookedMovesForward(u, s, now);
    var after := Looked(u, s, now);
    if after != s {
      assert after.history[..|s.history|] == s.history;
    }
  }

  lemma MoveTells(u: Setup, from: int, s: State, now: int)
    requires Balanced(u, from, s, now) && LimitAt(u, s, now).Some?
    requires Told(from, s) && |s.path| == |s.history|
    ensures Told(from, Looked(u, s, now))
    ensures |Looked(u, s, now).path| == |Looked(u, s, now).history| || Leaves(u, s, now)
  {
    hide LimitAt, Next, Ordered;
    var after := Looked(u, s, now);
    if after != s {
      forall i | 0 <= i < |s.path| ensures Tells(from, after.history, after.path, i) {
        assert Tells(from, s.history, s.path, i);
        assert after.history[..i + 1] == s.history[..i + 1];
      }
      assert after.history[..|after.history|] == after.history;
      assert after.history[..|s.history|] == s.history;
    }
  }

  /** Whatever the policies bound, the estimate accounts for every replica and
      never overshoots. */
  lemma {:induction false} EstimateAccounts(u: Setup, from: int, s: State, before: int, now: int, last: int, tick: int)
    requires tick > 0 && before <= now
    requires Balanced(u, from, s, before) && Told(from, s) && |s.path| == |s.history|
    ensures Balanced(u, from, Simulate(u, s, now, last, tick), Max(before, last + 1))
    ensures Told(from, Simulate(u, s, now, last, tick))
    decreases last - now
  {
    hide Simulate, Balanced, Told, LimitAt, Looked, Leaves;
    OneStep(u, s, now, last, tick);
    if Ends(u, s, now, last) {
      BalancedLater(u, from, s, before, Max(before, last + 1));
    } else {
      BalancedLater(u, from, s, before, now);
      MoveBalances(u, from, s, now);
      MoveTells(u, from, s, now);
      if Leaves(u, s, now) {
        BalancedLater(u, from, Looked(u, s, now), now + 1, Max(before, last + 1));
      } else {
        EstimateAccounts(u, from, Looked(u, s, now), now + 1, now + tick, last, tick);
      }
    }
  }

  lemma BalancedLater(u: Setup, from: int, s: State, before: int, later: int)
    requires Balanced(u, from, s, before) && before <= later
    ensures Balanced(u, from, s, later)
  {
  }

  // ------------------------------------------------------ what a policy allows

  function Along(up: bool, change: int): int { if up then change else -change }

  /** The policy bounds every baseline, `most` away at the furthest. Baselines are
      clamped to what an int32 holds. */
  ghost predicate AllowsAtMost(bound: Bound, up: bool, p: Policy, most: nat) {
    forall b | 0 <= b <= MAX_INT32 :: Permitted(bound(b, up, p), up, b, most)
  }

  predicate Permitted(limit: Option<int>, up: bool, from: int, most: nat) {
    limit.Some? && Along(up, limit.value - from) <= most
  }

  /** No period, ending at any time, holds more change than that. */
  ghost predicate NeverMore(history: seq<Event>, up: bool, period: int, most: nat) {
    forall now :: Along(up, Recent(history, now, period)) <= most
  }

  lemma {:induction false} RecentWithinChanges(history: seq<Event>, up: bool, now: int, period: int)
    requires AllForward(up, history)
    ensures 0 <= Along(up, Recent(history, now, period)) <= Along(up, Changes(history))
  {
    if history != [] {
      RecentWithinChanges(history[..|history| - 1], up, now, period);
    }
  }

  /** Once nothing new happens, a period only forgets. */
  lemma {:induction false} RecentFades(history: seq<Event>, up: bool, now: int, later: int, period: int)
    requires AllForward(up, history) && now <= later
    requires forall i | 0 <= i < |history| :: history[i].time <= now
    ensures Along(up, Recent(history, later, period)) <= Along(up, Recent(history, now, period))
  {
    if history != [] {
      RecentFades(history[..|history| - 1], up, now, later, period);
    }
  }

  /** Under the cautious selection, or with a single policy, no policy's bound is
      passed. */
  lemma {:induction false} LimitWithinEach(policies: seq<Policy>, i: nat, up: bool, select: Select, bound: Bound,
                                           r: int, h: seq<Event>, t: int)
    requires i < |policies| && (select == MinChange || |policies| == 1)
    requires Candidate(r, up, policies[i], Recent(h, t, policies[i].period), bound).Some?
    ensures var limit := Limit(r, up, select, policies, t, h, bound);
            && limit.Some?
            && Along(up, limit.value)
                 <= Along(up, Candidate(r, up, policies[i], Recent(h, t, policies[i].period), bound).value)
  {
    var n := |policies| - 1;
    if i < n {
      LimitWithinEach(policies[..n], i, up, select, bound, r, h, t);
    }
  }

  /** What the loop needs to know about the policy it must respect. */
  ghost predicate Respects(u: Setup, i: nat, most: nat) {
    && i < |u.policies| && u.policies[i].period > 0
    && (u.select == MinChange || |u.policies| == 1)
    && AllowsAtMost(u.bound, u.up, u.policies[i], most)
  }

  lemma MoveFits(u: Setup, i: nat, most: nat, from: int, s: State, now: int)
    requires Respects(u, i, most) && Balanced(u, from, s, now)
    requires 0 < from <= MAX_INT32 && 0 < u.desired <= MAX_INT32
    requires LimitAt(u, s, now).Some? && Looked(u, s, now) != s
    ensures Along(u.up, Recent(s.history, now, u.policies[i].period) + Looked(u, s, now).replicas - s.replicas) <= most
  {
    var p := u.policies[i];
    var recent := Recent(s.history, now, p.period);
    RecentWithinChanges(s.history, u.up, now, p.period);
    assert Baseline(s.replicas, recent) == s.replicas - recent;
    assert Permitted(u.bound(s.replicas - recent, u.up, p), u.up, s.replicas - recent, most);
    LimitWithinEach(u.policies, i, u.up, u.select, u.bound, s.replicas, s.history, now);
    LookedMovesForward(u, s, now);
  }

  lemma MoveNeverMore(u: Setup, i: nat, most: nat, from: int, s: State, now: int)
    requires Respects(u, i, most) && Balanced(u, from, s, now)
    requires 0 < from <= MAX_INT32 && 0 < u.desired <= MAX_INT32
    requires LimitAt(u, s, now).Some?
    requires NeverMore(s.history, u.up, u.policies[i].period, most)
    ensures NeverMore(Looked(u, s, now).history, u.up, u.policies[i].period, most)
  {
    hide LimitAt, Looked, AllowsAtMost;
    var after, period := Looked(u, s, now), u.policies[i].period;
    if after != s {
      MoveFits(u, i, most, from, s, now);
      LookedMovesForward(u, s, now);
      OneMoreChange(s.history, u.up, period, most, now, after.replicas - s.replicas);
    }
  }

  lemma OneMoreChange(history: seq<Event>, up: bool, period: int, most: nat, now: int, change: int)
    requires AllForward(up, history) && (forall i | 0 <= i < |history| :: history[i].time <= now)
    requires NeverMore(history, up, period, most)
    requires Along(up, Recent(history, now, period) + change) <= most
    ensures NeverMore(history + [Event(now, change)], up, period, most)
  {
    var longer := history + [Event(now, change)];
    assert longer[..|history|] == history;
    forall end ensures Along(up, Recent(longer, end, period)) <= most {
      assert Along(up, Recent(history, end, period)) <= most;
      if now <= end {
        RecentFades(history, up, now, end, period);
      }
    }
  }

  /** Wherever a rolling period is placed over the estimated path, it holds no
      more change than the policy allows, though the loop looks only at the
      periods that end at a point of its grid. */
  lemma {:induction false} PolicyHoldsEverywhere(u: Setup, i: nat, most: nat, from: int, s: State,
                                                now: int, last: int, tick: int)
    requires tick > 0 && Respects(u, i, most) && Balanced(u, from, s, now)
    requires 0 < from <= MAX_INT32 && 0 < u.desired <= MAX_INT32
    requires NeverMore(s.history, u.up, u.policies[i].period, most)
    ensures NeverMore(Simulate(u, s, now, last, tick).history, u.up, u.policies[i].period, most)
    decreases last - now
  {
    hide Simulate, Balanced, LimitAt, Looked, Leaves, NeverMore, AllowsAtMost;
    OneStep(u, s, now, last, tick);
    if !Ends(u, s, now, last) {
      MoveNeverMore(u, i, most, from, s, now);
      if !Leaves(u, s, now) {
        MoveBalances(u, from, s, now);
        BalancedLater(u, from, Looked(u, s, now), now + 1, now + tick);
        PolicyHoldsEverywhere(u, i, most, from, Looked(u, s, now), now + tick, last, tick);
      }
    }
  }

  // --------------------------------------------------------------- the command

  /** The shortest of the periods. */
  ghost predicate IsShortest(step: int, policies: seq<Policy>) {
    && (exists i | 0 <= i < |policies| :: policies[i].period == step)
    && (forall i | 0 <= i < |policies| :: step <= policies[i].period)
  }

  /** The path found by looking every second, from the first step after the
      stabilization window to the twentieth. */
  function EverySecond(u: Setup, current: int, delay: int, step: int): State {
    Simulate(u, State(current, [], []), delay + step, delay + 20 * step, 1)
  }

  lemma TickFits(tick: int, step: int, policies: seq<Policy>, now: int)
    requires IsTick(tick, step, policies)
    ensures tick > 0 && PeriodsOnGrid(policies, tick) && Divides(1, tick) && OnGrid([], now, tick)
  {
    DividesTimes(1, tick, tick);
  }

  /** The loop over the grid. */
  method WalkGrid(u: Setup, current: int, first: int, last: int, tick: int) returns (path: seq<Point>)
    requires tick > 0
    ensures path == Simulate(u, State(current, [], []), first, last, tick).path
  {
    hide Limit;
    var replicas, history := current, [];
    path := [];
    var elapsed := first;
    ghost var target := Simulate(u, State(current, [], []), first, last, tick);
    while elapsed <= last && replicas != u.desired
      invariant target == Simulate(u, State(replicas, history, path), elapsed, last, tick)
      decreases last - elapsed
    {
      var limit := ComputeLimit(replicas, u.up, u.select, u.policies, elapsed, history, u.bound);
      if limit.None? {
        break;
      }
      var next := if u.up then Min(u.desired, limit.value) else Max(u.desired, limit.value);
      if next != replicas {
        history := history + [Event(elapsed, next - replicas)];
        replicas := next;
        if elapsed > MAX_INT32 {
          break;
        }
        path := path + [Point(elapsed, replicas)];
      }
      elapsed := elapsed + tick;
    }
  }

  /** The path along usable policies: what looking every second finds. */
  method WalkPolicies(current: int, desired: int, up: bool, rules: Rules, stepSeconds: int, bound: Bound)
    returns (path: seq<Point>)
    requires stepSeconds > 0 && !rules.select.Disabled?
    ensures path == EverySecond(Setup(desired, up, rules.select, Usable(rules.policies), bound), current,
                                Max(0, rules.window), stepSeconds).path
  {
    hide Simulate, IsTick, PeriodsOnGrid, OnGrid, Usable, Divides;
    var tick, policies := TickAndPolicies(rules.policies, stepSeconds);
    var u := Setup(desired, up, rules.select, policies, bound);
    var delay := Max(0, rules.window);
    TickFits(tick, stepSeconds, policies, delay + stepSeconds);
    GridLosesNothing(u, State(current, [], []), delay + stepSeconds, delay + 20 * stepSeconds, tick, 1);
    path := WalkGrid(u, current, delay + stepSeconds, delay + 20 * stepSeconds, tick);
  }

  method EstimateBehaviorPath(current: int, desired: int, scaleUp: Rules, scaleDown: Rules, bound: Bound)
    returns (path: seq<Point>, ghost step: int)
    ensures current <= 0 || desired <= 0 || current == desired ==> path == []
    ensures current > 0 && desired > 0 && current != desired ==>
      var rules := if desired < current then scaleDown else scaleUp;
      var usable := Usable(rules.policies);
      var u := Setup(desired, desired > current, rules.select, usable, bound);
      && (rules.select.Disabled? ==> path == [Point(0, current)])
      && (!rules.select.Disabled? && usable == [] ==> path == [Point(0, desired)])
      && (!rules.select.Disabled? && usable != [] ==>
            IsShortest(step, usable) && path == EverySecond(u, current, Max(0, rules.window), step).path)
  {
    hide EverySecond, Usable;
    step := 0;
    if current <= 0 || desired <= 0 || current == desired {
      return [], step;
    }
    var rules, up := scaleUp, true;
    if desired < current {
      rules, up := scaleDown, false;
    }
    if rules.select.Disabled? {
      return [Point(0, current)], step;
    }
    var stepSeconds := MinPositivePeriod(rules.policies);
    if stepSeconds == 0 {
      return [Point(0, desired)], step;
    }
    step := stepSeconds;
    path := WalkPolicies(current, desired, up, rules, stepSeconds, bound);
  }
}
