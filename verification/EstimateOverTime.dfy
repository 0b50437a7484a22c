/** The estimate, second by second: what happens at each second between the first
    and the last look, and that nothing happens outside. */
module EstimateOverTime {
  import opened Common
  import opened BehaviorPath
  import opened BehaviorTheorems
  import opened PolicyBounds

  /** The changes before `t`. */
  function Until(history: seq<Event>, t: int): seq<Event> {
    if history == [] then []
    else
      var init, last := history[..|history| - 1], history[|history| - 1];
      if last.time < t then Until(init, t) + [last] else Until(init, t)
  }

  ghost predicate NothingAt(history: seq<Event>, t: int) {
    forall i | 0 <= i < |history| :: history[i].time != t
  }

  /** At second `t` the replicas go to the selected limit, and no further than the
      target; without a limit, at the target or already at the limit they stay. */
  ghost predicate Explained(u: Setup, current: int, history: seq<Event>, t: int, limit: Option<int>) {
    var r := current + Changes(Until(history, t));
    Selects(limit, r, u.up, u.select, u.policies, t, Until(history, t), u.bound) ==>
      if r == u.desired || limit == None then NothingAt(history, t)
      else
        var next := if u.up then (if limit.value < u.desired then limit.value else u.desired)
                    else (if limit.value > u.desired then limit.value else u.desired);
        if next == r then NothingAt(history, t) else Event(t, next - r) in history
  }

  /** The estimate ends at `t`: at the target, without a limit, or with a change
      later than an int32 holds. */
  ghost predicate Over(u: Setup, current: int, history: seq<Event>, t: int) {
    var r := current + Changes(Until(history, t));
    || r == u.desired
    || Selects(None, r, u.up, u.select, u.policies, t, Until(history, t), u.bound)
    || (t > 2147483647 && !NothingAt(history, t))
  }

  ghost predicate OverBefore(u: Setup, current: int, history: seq<Event>, from: int, t: int) {
    exists t' | from <= t' < t :: Over(u, current, history, t')
  }

  /** What the estimate does at one second. */
  ghost predicate Right(u: Setup, current: int, history: seq<Event>, from: int, t: int) {
    if OverBefore(u, current, history, from, t) then NothingAt(history, t)
    else forall limit :: Explained(u, current, history, t, limit)
  }

  ghost predicate AllRight(u: Setup, current: int, history: seq<Event>, first: int, last: int) {
    forall t | first <= t <= last :: Right(u, current, history, first, t)
  }

  // ------------------------------------------------------------- histories

  lemma {:induction false} UntilAll(history: seq<Event>, t: int)
    requires forall i | 0 <= i < |history| :: history[i].time < t
    ensures Until(history, t) == history
  {
    if history != [] {
      UntilAll(history[..|history| - 1], t);
    }
  }

  lemma {:induction false} UntilEarlier(history: seq<Event>, a: int, b: int)
    requires a <= b
    ensures Until(Until(history, b), a) == Until(history, a)
  {
    if history != [] {
      var init, last := history[..|history| - 1], history[|history| - 1];
      UntilEarlier(init, a, b);
      if last.time < b {
        assert (Until(init, b) + [last])[..|Until(init, b)|] == Until(init, b);
      }
    }
  }

  lemma {:induction false} UntilHolds(history: seq<Event>, t: int, e: Event)
    ensures e in Until(history, t) <==> e in history && e.time < t
  {
    if history != [] {
      UntilHolds(history[..|history| - 1], t, e);
      assert history == history[..|history| - 1] + [history[|history| - 1]];
    }
  }

  /** `s` is where the loop stands at `now` of a run that ends with `history`. */
  ghost predicate Stands(s: State, history: seq<Event>, now: int) {
    Until(history, now) == s.history
  }

  lemma StandsBefore(s: State, history: seq<Event>, earlier: State, now: int, next: int)
    requires Stands(s, history, next) && now < next && Until(s.history, now) == earlier.history
    ensures Stands(earlier, history, now)
  {
    UntilEarlier(history, now, next);
  }

  // ---------------------------------------------------------- second by second

  /** The second the loop is looking at. */
  lemma LookedRight(u: Setup, current: int, s: State, history: seq<Event>, now: int)
    requires Balanced(u, current, s, now) && Stands(s, history, now)
    requires s.replicas == u.desired || LimitAt(u, s, now).None? ==> NothingAt(history, now)
    requires s.replicas != u.desired && LimitAt(u, s, now).Some? ==>
      if Looked(u, s, now) == s then NothingAt(history, now)
      else Event(now, Looked(u, s, now).replicas - s.replicas) in history
    ensures forall limit :: Explained(u, current, history, now, limit)
  {
    hide Selects, Limit, Ordered, Until, NothingAt, Changes;
    forall limit ensures Explained(u, current, history, now, limit) {
      LimitSelectsExactly(limit, s.replicas, u.up, u.select, u.policies, now, s.history, u.bound);
    }
  }

  lemma OverExactly(u: Setup, current: int, s: State, history: seq<Event>, now: int)
    requires Balanced(u, current, s, now) && Stands(s, history, now)
    ensures Over(u, current, history, now) <==>
      s.replicas == u.desired || LimitAt(u, s, now).None? || (now > MAX_INT32 && !NothingAt(history, now))
  {
    hide Selects, Limit, Ordered, Until, NothingAt, Changes;
    LimitSelectsExactly(None, s.replicas, u.up, u.select, u.policies, now, s.history, u.bound);
  }

  lemma OverLater(u: Setup, current: int, history: seq<Event>, now: int, t: int)
    requires now < t && !Over(u, current, history, now)
    ensures OverBefore(u, current, history, now, t) <==> OverBefore(u, current, history, now + 1, t)
  {
    hide Over;
    if t' :| now <= t' < t && Over(u, current, history, t') {
      assert now + 1 <= t' < t;
    }
  }

  lemma EndedRight(u: Setup, current: int, s: State, now: int, last: int)
    requires Balanced(u, current, s, now) && Ends(u, s, now, last)
    ensures Stands(s, s.history, now)
    ensures AllRight(u, current, s.history, now, last) && QuietAfter(s.history, now, last)
  {
    UntilAll(s.history, now);
    hide Until;
    assert forall t | t >= now :: NothingAt(s.history, t);
    if now <= last {
      LookedRight(u, current, s, s.history, now);
      OverExactly(u, current, s, s.history, now);
      hide NothingAt, Explained, Over, LimitAt, Balanced;
    }
  }

  lemma LookedUntil(u: Setup, current: int, s: State, now: int)
    requires Balanced(u, current, s, now) && LimitAt(u, s, now).Some?
    ensures Until(Looked(u, s, now).history, now) == s.history
  {
    UntilAll(s.history, now);
    hide LimitAt, Next;
    var after := Looked(u, s, now);
    if after != s {
      assert after.history[..|s.history|] == s.history;
    }
  }

  /** A change is the last one, and stands at its second. */
  lemma LeftHistory(u: Setup, current: int, s: State, now: int)
    requires Balanced(u, current, s, now) && LimitAt(u, s, now).Some? && Looked(u, s, now) != s
    ensures var after := Looked(u, s, now);
      && Stands(s, after.history, now) && Event(now, after.replicas - s.replicas) in after.history
      && !NothingAt(after.history, now) && forall t | t > now :: NothingAt(after.history, t)
  {
    LookedUntil(u, current, s, now);
    hide LimitAt, Next, Until;
    var history := Looked(u, s, now).history;
    assert history[|s.history|] == Event(now, Looked(u, s, now).replicas - s.replicas);
    assert history[..|s.history|] == s.history;
  }

  lemma LeftNow(u: Setup, current: int, s: State, now: int, last: int)
    requires Balanced(u, current, s, now) && !Ends(u, s, now, last) && Leaves(u, s, now)
    ensures var history := Looked(u, s, now).history;
      && Stands(s, history, now) && Right(u, current, history, now, now) && Over(u, current, history, now)
      && forall t | t > now :: NothingAt(history, t)
  {
    hide NothingAt, Explained, Over, Balanced, Looked, LimitAt, Next, Until, Stands;
    var history := Looked(u, s, now).history;
    LeftHistory(u, current, s, now);
    LookedRight(u, current, s, history, now);
    OverExactly(u, current, s, history, now);
  }

  /** Once over, nothing more is all there is to be right. */
  lemma OverRight(u: Setup, current: int, history: seq<Event>, now: int, last: int)
    requires Right(u, current, history, now, now) && Over(u, current, history, now)
    requires now <= last && forall t | t > now :: NothingAt(history, t)
    ensures AllRight(u, current, history, now, last) && QuietAfter(history, now, last)
  {
    hide NothingAt, Over, Explained;
    forall t | now <= t <= last ensures Right(u, current, history, now, t) {
      assert t > now ==> OverBefore(u, current, history, now, t);
    }
  }

  lemma NowRight(u: Setup, current: int, s: State, history: seq<Event>, now: int, last: int)
    requires Balanced(u, current, s, now) && !Ends(u, s, now, last) && !Leaves(u, s, now)
    requires Stands(s, history, now) && Stands(Looked(u, s, now), history, now + 1)
    ensures Right(u, current, history, now, now) && !Over(u, current, history, now)
  {
    var after := Looked(u, s, now);
    hide LimitAt, Next;
    if after == s {
      forall i | 0 <= i < |history| ensures history[i].time != now {
        UntilHolds(history, now + 1, history[i]);
      }
    } else {
      UntilHolds(history, now + 1, after.history[|s.history|]);
    }
    hide Until, Looked;
    LookedRight(u, current, s, history, now);
    OverExactly(u, current, s, history, now);
    hide Explained, Over, NothingAt, Balanced;
  }

  lemma RightLater(u: Setup, current: int, history: seq<Event>, now: int, t: int)
    requires now < t && !Over(u, current, history, now) && Right(u, current, history, now + 1, t)
    ensures Right(u, current, history, now, t)
  {
    OverLater(u, current, history, now, t);
    hide OverBefore, Explained, NothingAt;
  }

  /** Nothing happens from `now` on but up to `last`. */
  ghost predicate QuietAfter(history: seq<Event>, now: int, last: int) {
    forall t | t > last && t >= now :: NothingAt(history, t)
  }

  lemma RestRight(u: Setup, current: int, history: seq<Event>, now: int, last: int)
    requires Right(u, current, history, now, now) && !Over(u, current, history, now)
    requires AllRight(u, current, history, now + 1, last) && QuietAfter(history, now + 1, last) && now <= last
    ensures AllRight(u, current, history, now, last) && QuietAfter(history, now, last)
  {
    hide Right, Over, NothingAt;
    forall t | now <= t <= last ensures Right(u, current, history, now, t) {
      if t > now {
        RightLater(u, current, history, now, t);
      }
    }
  }

  /** Every second from `now` on is right, and the changes before it stay. */
  lemma {:induction false} SecondsRight(u: Setup, current: int, s: State, now: int, last: int)
    requires Balanced(u, current, s, now)
    ensures var history := Simulate(u, s, now, last, 1).history;
      Stands(s, history, now) && AllRight(u, current, history, now, last) && QuietAfter(history, now, last)
    decreases last - now
  {
    hide Simulate, Right, Looked, Balanced, Stands, NothingAt, LimitAt, Over, AllRight, QuietAfter, Leaves;
    var history := Simulate(u, s, now, last, 1).history;
    OneStep(u, s, now, last, 1);
    if Ends(u, s, now, last) {
      EndedRight(u, current, s, now, last);
    } else {
      MoveBalances(u, current, s, now);
      LookedUntil(u, current, s, now);
      if Leaves(u, s, now) {
        LeftNow(u, current, s, now, last);
        OverRight(u, current, history, now, last);
      } else {
        SecondsRight(u, current, Looked(u, s, now), now + 1, last);
        StandsBefore(Looked(u, s, now), history, s, now, now + 1);
        NowRight(u, current, s, history, now, last);
        RestRight(u, current, history, now, last);
      }
    }
  }

  /** The estimate looks from one step after the window to twenty steps after it;
      each of those seconds is right, and nothing happens at any other. */
  lemma EstimateSecondBySecond(u: Setup, current: int, delay: int, step: int)
    requires u.up == (u.desired > current) && step > 0
    ensures var history := EverySecond(u, current, delay, step).history;
      && AllRight(u, current, history, delay + step, delay + 20 * step)
      && (forall t | t < delay + step || t > delay + 20 * step :: NothingAt(history, t))
  {
    var s, first, last := State(current, [], []), delay + step, delay + 20 * step;
    var history := Simulate(u, s, first, last, 1).history;
    assert history == EverySecond(u, current, delay, step).history;
    hide Simulate, EverySecond, Right, AllRight;
    StartBalances(u, current, first);
    SecondsRight(u, current, s, first, last);
    NothingBefore(history, first);
  }

  lemma NothingBefore(history: seq<Event>, first: int)
    requires Until(history, first) == []
    ensures forall t | t < first :: NothingAt(history, t)
  {
    forall i | 0 <= i < |history| ensures history[i].time >= first {
      UntilHolds(history, first, history[i]);
    }
  }
}
