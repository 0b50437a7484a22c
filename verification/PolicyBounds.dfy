/** What the scaling policies themselves promise of an estimate: replicas stay
    within each policy's bound of the replicas one period earlier, wherever the
    period is placed. */
module PolicyBounds {
  import opened Common
  import opened BehaviorPath
  import opened BehaviorTheorems

  // ------------------------------------------------------- the policies in use

  function CeilDiv(n: int, d: int): int
    requires d > 0
  {
    -((-n) / d)
  }

  /** The replica bound from a period-start baseline. Percentages are exact. */
  function ReplicaLimit(current: int, up: bool, p: Policy): Option<int> {
    if p.value <= 0 then None
    else if p.kind == "Pods" then Some(Clamped(if up then current + p.value else current - p.value))
    else if p.kind == "Percent" then
      Some(Clamped(CeilDiv(current * (if up then 100 + p.value else 100 - p.value), 100)))
    else None
  }

  function Clamped(candidate: int): int { Max(0, Min(candidate, MAX_INT32)) }

  /** A bound for every baseline, monotone and never behind the baseline. */
  ghost predicate Steady(bound: Bound, up: bool, p: Policy) {
    && (forall b | 0 <= b <= MAX_INT32 :: Ahead(bound, up, p, b))
    && (forall a, b | 0 <= a <= b <= MAX_INT32 :: NoLower(bound, up, p, a, b))
  }

  predicate NoLower(bound: Bound, up: bool, p: Policy, a: int, b: int) {
    bound(a, up, p).Some? && bound(b, up, p).Some? ==> bound(a, up, p).value <= bound(b, up, p).value
  }

  predicate Ahead(bound: Bound, up: bool, p: Policy, b: int) {
    bound(b, up, p).Some? && Along(up, b) <= Along(up, bound(b, up, p).value)
  }

  lemma CeilDivLeast(n: int, k: int)
    ensures CeilDiv(n, 100) <= k <==> n <= 100 * k
  {
  }

  /** A bound counted in percent neither falls behind nor overtakes. */
  lemma PercentSteps(a: int, b: int, value: int, up: bool)
    requires 0 <= a <= b && value > 0
    ensures var m := if up then 100 + value else 100 - value;
      && Max(0, CeilDiv(a * m, 100)) <= Max(0, CeilDiv(b * m, 100))
      && Along(up, b) <= Along(up, Max(0, CeilDiv(b * m, 100)))
  {
    var m := if up then 100 + value else 100 - value;
    var k := CeilDiv(b * m, 100);
    CeilDivLeast(b * m, k);
    if m >= 0 {
      Product(a, b, m);
      CeilDivLeast(a * m, k);
    } else {
      Product(0, a, -m);
      CeilDivLeast(a * m, 0);
    }
    if up {
      Product(100, m, b);
      CeilDivLeast(b * m, b - 1);
    } else {
      Product(m, 100, b);
      CeilDivLeast(b * m, b);
    }
  }

  lemma Product(x: int, y: int, f: int)
    requires x <= y && f >= 0
    ensures x * f <= y * f
  {
  }

  /** Both kinds of policy are steady, so the theorem below is about them. */
  lemma ReplicaLimitIsSteady(p: Policy, up: bool)
    requires p.value > 0 && (p.kind == "Pods" || p.kind == "Percent")
    ensures Steady(ReplicaLimit, up, p)
  {
    forall b | 0 <= b <= MAX_INT32 ensures Ahead(ReplicaLimit, up, p, b) {
      if p.kind == "Percent" {
        PercentSteps(b, b, p.value, up);
      }
    }
    forall a, b | 0 <= a <= b <= MAX_INT32
      ensures NoLower(ReplicaLimit, up, p, a, b)
    {
      if p.kind == "Percent" {
        PercentSteps(a, b, p.value, up);
      }
    }
  }

  /** The bounds in plain numbers: pods add or take away, percentages are the least
      whole number that is not below them; both are held to what an int32 is. */
  lemma ReplicaLimitMeans(current: int, up: bool, p: Policy)
    ensures ReplicaLimit(current, up, p) == None <==> p.value <= 0 || p.kind !in {"Pods", "Percent"}
    ensures ReplicaLimit(current, up, p).Some? ==> 0 <= ReplicaLimit(current, up, p).value <= 2147483647
    ensures p.value > 0 && p.kind == "Pods" ==>
      var r, exact := ReplicaLimit(current, up, p).value, if up then current + p.value else current - p.value;
      && (0 <= exact <= 2147483647 ==> r == exact)
      && (exact < 0 ==> r == 0) && (exact > 2147483647 ==> r == 2147483647)
    ensures p.value > 0 && p.kind == "Percent" ==>
      var r := ReplicaLimit(current, up, p).value;
      var hundredfold := if up then current * (100 + p.value) else current * (100 - p.value);
      && (r < 2147483647 ==> 100 * r >= hundredfold)
      && (r > 0 ==> 100 * (r - 1) < hundredfold)
  {
    if p.value > 0 && p.kind == "Percent" {
      var hundredfold := current * (if up then 100 + p.value else 100 - p.value);
      var r := ReplicaLimit(current, up, p).value;
      CeilDivLeast(hundredfold, r);
      CeilDivLeast(hundredfold, r - 1);
    }
  }

  /** A policy counted in pods allows exactly its value. */
  lemma PodsAllowTheirValue(p: Policy, up: bool)
    requires p.value > 0 && p.kind == "Pods"
    ensures AllowsAtMost(ReplicaLimit, up, p, p.value)
  {
  }

  // ------------------------------------------------------ replicas over time

  /** Changes up to and including `t`. */
  function Past(history: seq<Event>, t: int): int {
    if history == [] then 0
    else
      var last := history[|history| - 1];
      Past(history[..|history| - 1], t) + (if last.time <= t then last.change else 0)
  }

  lemma {:induction false} RecentIsDifference(history: seq<Event>, t: int, period: int)
    requires period >= 0
    ensures Recent(history, t, period) == Past(history, t) - Past(history, t - period)
  {
    if history != [] {
      RecentIsDifference(history[..|history| - 1], t, period);
    }
  }

  lemma {:induction false} PastGrows(history: seq<Event>, up: bool, a: int, b: int)
    requires AllForward(up, history) && a <= b
    ensures 0 <= Along(up, Past(history, a)) <= Along(up, Past(history, b)) <= Along(up, Changes(history))
  {
    if history != [] {
      PastGrows(history[..|history| - 1], up, a, b);
    }
  }

  lemma {:induction false} PastIsAll(history: seq<Event>, t: int)
    requires forall i | 0 <= i < |history| :: history[i].time <= t
    ensures Past(history, t) == Changes(history)
  {
    if history != [] {
      PastIsAll(history[..|history| - 1], t);
    }
  }

  /** At `t` the replicas are within the bound of those one period earlier. */
  predicate BoundedAt(bound: Bound, up: bool, p: Policy, from: int, history: seq<Event>, t: int) {
    var limit := bound(from + Past(history, t - p.period), up, p);
    limit.Some? && Along(up, from + Past(history, t)) <= Along(up, limit.value)
  }

  ghost predicate Bounded(bound: Bound, up: bool, p: Policy, from: int, history: seq<Event>) {
    forall t :: BoundedAt(bound, up, p, from, history, t)
  }

  ghost predicate Replicas(r: int) { 0 < r <= MAX_INT32 }

  /** The policy, and a selection that never passes it. */
  ghost predicate Binding(u: Setup, i: nat) {
    && i < |u.policies| && u.policies[i].period > 0
    && (u.select == MinChange || |u.policies| == 1)
    && Steady(u.bound, u.up, u.policies[i])
  }

  lemma NoChangeIsBounded(bound: Bound, up: bool, p: Policy, from: int)
    requires Steady(bound, up, p) && Replicas(from)
    ensures Bounded(bound, up, p, from, [])
  {
    assert Ahead(bound, up, p, from);
  }

  /** A move goes no further than the bound of one period before it. */
  lemma MoveWithinBound(u: Setup, i: nat, from: int, s: State, now: int)
    requires Binding(u, i) && Balanced(u, from, s, now) && Replicas(from) && Replicas(u.desired)
    requires LimitAt(u, s, now).Some? && Looked(u, s, now) != s
    ensures var base := from + Past(s.history, now - u.policies[i].period);
      && 0 < base <= MAX_INT32
      && u.bound(base, u.up, u.policies[i]).Some?
      && Along(u.up, Looked(u, s, now).replicas) <= Along(u.up, u.bound(base, u.up, u.policies[i]).value)
  {
    var p := u.policies[i];
    var recent, base := Recent(s.history, now, p.period), from + Past(s.history, now - p.period);
    RecentIsDifference(s.history, now, p.period);
    PastIsAll(s.history, now);
    PastGrows(s.history, u.up, now - p.period, now);
    assert Baseline(s.replicas, recent) == base;
    assert Ahead(u.bound, u.up, p, base);
    LookedMovesForward(u, s, now);
    hide Looked, Balanced, Steady;
    LimitWithinEach(u.policies, i, u.up, u.select, u.bound, s.replicas, s.history, now);
    MoveUpToLimit(u, s, now);
  }

  lemma MoveUpToLimit(u: Setup, s: State, now: int)
    requires LimitAt(u, s, now).Some? && Looked(u, s, now) != s
    ensures Along(u.up, Looked(u, s, now).replicas) <= Along(u.up, LimitAt(u, s, now).value)
  {
    hide LimitAt;
  }

  /** One more change that is within the bound where it happens leaves every
      placement of the period within it. */
  lemma OneMoreBounded(bound: Bound, up: bool, p: Policy, from: int, history: seq<Event>, now: int, change: int)
    requires Steady(bound, up, p) && p.period > 0 && Bounded(bound, up, p, from, history)
    requires AllForward(up, history) && Forward(up, change)
    requires forall i | 0 <= i < |history| :: history[i].time < now
    requires Replicas(from) && Replicas(from + Changes(history) + change)
    requires var base := bound(from + Past(history, now - p.period), up, p);
      base.Some? && Along(up, from + Changes(history) + change) <= Along(up, base.value)
    ensures Bounded(bound, up, p, from, history + [Event(now, change)])
  {
    hide Steady, BoundedAt, Past;
    forall t ensures BoundedAt(bound, up, p, from, history + [Event(now, change)], t) {
      assert BoundedAt(bound, up, p, from, history, t);
      OneMoreBoundedAt(bound, up, p, from, history, now, change, t);
    }
  }

  lemma PastWith(history: seq<Event>, now: int, change: int, t: int)
    ensures Past(history + [Event(now, change)], t) == Past(history, t) + (if now <= t then change else 0)
  {
    assert (history + [Event(now, change)])[..|history|] == history;
  }

  lemma OneMoreBoundedAt(bound: Bound, up: bool, p: Policy, from: int, history: seq<Event>, now: int, change: int,
                         t: int)
    requires Steady(bound, up, p) && p.period > 0 && BoundedAt(bound, up, p, from, history, t)
    requires AllForward(up, history) && Forward(up, change)
    requires forall i | 0 <= i < |history| :: history[i].time < now
    requires Replicas(from) && Replicas(from + Changes(history) + change)
    requires var base := bound(from + Past(history, now - p.period), up, p);
      base.Some? && Along(up, from + Changes(history) + change) <= Along(up, base.value)
    ensures BoundedAt(bound, up, p, from, history + [Event(now, change)], t)
  {
    hide Past, Changes, AllForward;
    var next, early, late := from + Changes(history) + change, now - p.period, t - p.period;
    PastWith(history, now, change, t);
    PastWith(history, now, change, late);
    if now <= t {
      PastIsAll(history, t);
      if now <= late {
        PastIsAll(history, late);
        assert Ahead(bound, up, p, next);
      } else {
        PastGrows(history, up, early, late);
        var a, b := from + Past(history, early), from + Past(history, late);
        assert if up then NoLower(bound, up, p, a, b) else NoLower(bound, up, p, b, a);
        assert Ahead(bound, up, p, b);
      }
    }
  }

  /** For every monotone bound that never points backwards: wherever a period is
      placed over the estimate, the replicas at its end are within the policy's
      bound of the replicas at its start. */
  lemma {:induction false} BoundHoldsEverywhere(u: Setup, i: nat, from: int, s: State, now: int, last: int, tick: int)
    requires tick > 0 && Binding(u, i) && Balanced(u, from, s, now) && Replicas(from) && Replicas(u.desired)
    requires Bounded(u.bound, u.up, u.policies[i], from, s.history)
    ensures Bounded(u.bound, u.up, u.policies[i], from, Simulate(u, s, now, last, tick).history)
    decreases last - now
  {
    hide Simulate, Balanced, LimitAt, Looked, Leaves, Bounded, Steady;
    OneStep(u, s, now, last, tick);
    if !Ends(u, s, now, last) {
      StepBounded(u, i, from, s, now);
      if !Leaves(u, s, now) {
        MoveBalances(u, from, s, now);
        BalancedLater(u, from, Looked(u, s, now), now + 1, now + tick);
        BoundHoldsEverywhere(u, i, from, Looked(u, s, now), now + tick, last, tick);
      }
    }
  }

  lemma StepBounded(u: Setup, i: nat, from: int, s: State, now: int)
    requires Binding(u, i) && Balanced(u, from, s, now) && Replicas(from) && Replicas(u.desired)
    requires LimitAt(u, s, now).Some? && Bounded(u.bound, u.up, u.policies[i], from, s.history)
    ensures Bounded(u.bound, u.up, u.policies[i], from, Looked(u, s, now).history)
  {
    hide LimitAt, Looked, Bounded, Steady;
    if Looked(u, s, now) != s {
      MoveWithinBound(u, i, from, s, now);
      LookedMovesForward(u, s, now);
      OneMoreBounded(u.bound, u.up, u.policies[i], from, s.history, now, Looked(u, s, now).replicas - s.replicas);
    }
  }

  lemma StartBalances(u: Setup, current: int, before: int)
    requires u.up == (u.desired > current)
    ensures Balanced(u, current, State(current, [], []), before)
  {
  }

  /** The estimate of the command, under the policies it knows: each period ends
      within the policy's bound of its start, and a policy counted in pods never
      sees more than its value. */
  lemma EstimateRespectsPolicies(u: Setup, i: nat, current: int, delay: int, step: int)
    requires u.bound == ReplicaLimit && u.up == (u.desired > current) && u.desired != current
    requires Replicas(current) && Replicas(u.desired)
    requires i < |u.policies| && u.policies[i].period > 0 && u.policies[i].value > 0
    requires u.policies[i].kind == "Pods" || u.policies[i].kind == "Percent"
    requires u.select == MinChange || |u.policies| == 1
    ensures Bounded(ReplicaLimit, u.up, u.policies[i], current, EverySecond(u, current, delay, step).history)
    ensures u.policies[i].kind == "Pods" ==>
      NeverMore(EverySecond(u, current, delay, step).history, u.up, u.policies[i].period, u.policies[i].value)
  {
    hide Simulate, Balanced, Steady, ReplicaLimit, AllowsAtMost, Bounded;
    var p, s := u.policies[i], State(current, [], []);
    StartBalances(u, current, delay + step);
    ReplicaLimitIsSteady(p, u.up);
    NoChangeIsBounded(u.bound, u.up, p, current);
    BoundHoldsEverywhere(u, i, current, s, delay + step, delay + 20 * step, 1);
    if p.kind == "Pods" {
      PodsAllowTheirValue(p, u.up);
      PolicyHoldsEverywhere(u, i, p.value, current, s, delay + step, delay + 20 * step, 1);
    }
  }
}
