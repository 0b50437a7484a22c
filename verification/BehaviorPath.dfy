/** Estimating how an HPA moves to its desired replicas under behavior policies:
    the loop visits a grid whose spacing is the gcd of the policy periods, and
    finds the same path as a loop that looks at every second. */
module BehaviorPath {
  import opened Common

  const MAX_INT32 := 2147483647

  datatype Select = MaxChange | MinChange | Disabled
  datatype Policy = Policy(kind: string, value: int, period: int)
  datatype Rules = Rules(window: int, select: Select, policies: seq<Policy>)
  datatype Event = Event(time: int, change: int)
  datatype Point = Point(after: int, replicas: int)

  /** The bound one policy sets from a period-start baseline, or none. */
  type Bound = (int, bool, Policy) -> Option<int>

  function Max(a: int, b: int): int { if a >= b then a else b }
  function Min(a: int, b: int): int { if a <= b then a else b }

  /** The bound nearer to, or further along, the direction of scaling. */
  function Toward(up: bool, a: int, b: int): int { if up then Max(a, b) else Min(a, b) }

  // ------------------------------------------------------------ rate limit

  predicate InWindow(e: Event, now: int, period: int) {
    now - period < e.time <= now
  }

  /** Changes still inside the rolling period. */
  function Recent(history: seq<Event>, now: int, period: int): int {
    if history == [] then 0
    else
      var last := history[|history| - 1];
      Recent(history[..|history| - 1], now, period) + (if InWindow(last, now, period) then last.change else 0)
  }

  function Baseline(current: int, recent: int): int {
    Max(0, Min(current - recent, MAX_INT32))
  }

  function Candidate(current: int, up: bool, p: Policy, recent: int, bound: Bound): Option<int> {
    match bound(Baseline(current, recent), up, p)
    case None => None
    case Some(c) => Some(Toward(up, current, c))
  }

  function Combine(up: bool, select: Select, a: Option<int>, b: Option<int>): Option<int> {
    if a.None? then b else if b.None? then a
    else if up == (select != MinChange) then Some(Max(a.value, b.value)) else Some(Min(a.value, b.value))
  }

  function Limit(current: int, up: bool, select: Select, policies: seq<Policy>, now: int,
                 history: seq<Event>, bound: Bound): Option<int>
  {
    if select.Disabled? then Some(current)
    else if policies == [] then None
    else
      var p := policies[|policies| - 1];
      Combine(up, select, Limit(current, up, select, policies[..|policies| - 1], now, history, bound),
              Candidate(current, up, p, Recent(history, now, p.period), bound))
  }

  // ------------------------------------------------- what the limit selects

  /** What one policy offers: its bound from the replicas its period started from,
      held to what an int32 is, and never behind the current replicas. */
  function Offer(current: int, up: bool, p: Policy, now: int, history: seq<Event>, bound: Bound): Option<int> {
    var base := current - Recent(history, now, p.period);
    var held := if base < 0 then 0 else if base > 2147483647 then 2147483647 else base;
    match bound(held, up, p)
    case None => None
    case Some(b) =>
      Some(if up then (if b > current then b else current) else (if b < current then b else current))
  }

  /** `a` is no further than `b` in the direction of scaling. */
  predicate NoFurther(up: bool, a: int, b: int) {
    if up then a <= b else a >= b
  }

  /** No offer, no limit; otherwise one of the offers, the nearest under the
      cautious selection and the furthest under any other. */
  ghost predicate Selects(limit: Option<int>, current: int, up: bool, select: Select, policies: seq<Policy>,
                          now: int, history: seq<Event>, bound: Bound) {
    if select == Disabled then limit == Some(current)
    else
      && (limit == None <==> forall p | p in policies :: Offer(current, up, p, now, history, bound) == None)
      && (limit.Some? ==>
            && (exists p | p in policies :: Offer(current, up, p, now, history, bound) == limit)
            && (forall p | p in policies ::
                  InLine(limit.value, up, select, Offer(current, up, p, now, history, bound))))
  }

  predicate InLine(limit: int, up: bool, select: Select, offer: Option<int>) {
    offer.Some? ==>
      if select == MinChange then NoFurther(up, limit, offer.value) else NoFurther(up, offer.value, limit)
  }

  lemma OfferIsCandidate(current: int, up: bool, p: Policy, now: int, history: seq<Event>, bound: Bound)
    ensures Offer(current, up, p, now, history, bound)
         == Candidate(current, up, p, Recent(history, now, p.period), bound)
  {
  }

  lemma {:induction false} LimitSelects(current: int, up: bool, select: Select, policies: seq<Policy>, now: int,
                                        history: seq<Event>, bound: Bound)
    ensures Selects(Limit(current, up, select, policies, now, history, bound), current, up, select, policies,
                    now, history, bound)
  {
    if policies != [] && select != Disabled {
      var init, last := policies[..|policies| - 1], policies[|policies| - 1];
      LimitSelects(current, up, select, init, now, history, bound);
      OfferIsCandidate(current, up, last, now, history, bound);
      var before, offer := Limit(current, up, select, init, now, history, bound),
                           Offer(current, up, last, now, history, bound);
      assert Limit(current, up, select, policies, now, history, bound) == Combine(up, select, before, offer);
      assert policies == init + [last];
      hide Limit, Candidate, Offer;
      OneMoreOffer(before, offer, current, up, select, init, last, now, history, bound);
    }
  }

  lemma OneMoreOffer(before: Option<int>, offer: Option<int>, current: int, up: bool, select: Select,
                     init: seq<Policy>, last: Policy, now: int, history: seq<Event>, bound: Bound)
    requires Selects(before, current, up, select, init, now, history, bound) && select != Disabled
    requires offer == Offer(current, up, last, now, history, bound)
    ensures Selects(Combine(up, select, before, offer), current, up, select, init + [last], now, history, bound)
  {
    hide Offer;
    var policies, limit := init + [last], Combine(up, select, before, offer);
    assert last in policies && forall p :: p in policies <==> p in init || p == last;
    if limit.Some? {
      if limit == offer {
        assert Offer(current, up, last, now, history, bound) == limit;
      } else {
        var p :| p in init && Offer(current, up, p, now, history, bound) == before;
        assert p in policies;
      }
    }
  }

  /** That singles the limit out. */
  lemma LimitSelectsExactly(limit: Option<int>, current: int, up: bool, select: Select, policies: seq<Policy>,
                            now: int, history: seq<Event>, bound: Bound)
    ensures limit == Limit(current, up, select, policies, now, history, bound)
       <==> Selects(limit, current, up, select, policies, now, history, bound)
  {
    var selected := Limit(current, up, select, policies, now, history, bound);
    LimitSelects(current, up, select, policies, now, history, bound);
    hide Limit, Offer;
    if Selects(limit, current, up, select, policies, now, history, bound) && select != Disabled {
      if limit.Some? {
        var p :| p in policies && Offer(current, up, p, now, history, bound) == limit;
        assert selected.Some?;
        var q :| q in policies && Offer(current, up, q, now, history, bound) == selected;
        assert InLine(limit.value, up, select, Offer(current, up, q, now, history, bound));
        assert InLine(selected.value, up, select, Offer(current, up, p, now, history, bound));
      }
    }
  }

  method ComputeLimit(current: int, up: bool, select: Select, policies: seq<Policy>, now: int,
                      history: seq<Event>, bound: Bound) returns (limit: Option<int>)
    ensures limit == Limit(current, up, select, policies, now, history, bound)
    ensures Selects(limit, current, up, select, policies, now, history, bound)
  {
    LimitSelects(current, up, select, policies, now, history, bound);
    hide Selects;
    if select.Disabled? {
      return Some(current);
    }
    limit := None;
    for i := 0 to |policies|
      invariant limit == Limit(current, up, select, policies[..i], now, history, bound)
    {
      var p := policies[i];
      assert policies[..i + 1][..i] == policies[..i];
      var baseline := current;
      for j := 0 to |history|
        invariant baseline == current - Recent(history[..j], now, p.period)
      {
        assert history[..j + 1][..j] == history[..j];
        if InWindow(history[j], now, p.period) {
          baseline := baseline - history[j].change;
        }
      }
      assert history[..|history|] == history;
      baseline := Max(0, Min(baseline, MAX_INT32));
      var candidate := bound(baseline, up, p);
      if candidate.Some? {
        var c := if up then Max(current, candidate.value) else Min(current, candidate.value);
        if limit.None? {
          limit := Some(c);
        } else if up == (select != MinChange) {
          limit := Some(Max(limit.value, c));
        } else {
          limit := Some(Min(limit.value, c));
        }
      }
    }
    assert policies[..|policies|] == policies;
  }

  // ---------------------------------------------------------- the gcd grid

  predicate Divides(d: int, n: int)
    requires d > 0
  {
    n % d == 0
  }

  lemma DividesTimes(d: int, n: int, k: int)
    requires d > 0 && n == d * k
    ensures Divides(d, n) && n / d == k
  {
    assert n == d * (n / d) + n % d;
    if n / d != k {
      TimesDiffers(d, k - n / d, n % d);
    }
  }

  lemma TimesDiffers(d: int, k: int, r: int)
    requires 0 <= r < d && k != 0
    ensures d * k != r
  {
  }

  lemma DividesSum(d: int, a: int, b: int)
    requires d > 0 && Divides(d, a) && Divides(d, b)
    ensures Divides(d, a + b) && Divides(d, a - b)
  {
    assert a == d * (a / d) && b == d * (b / d);
    DividesTimes(d, a + b, a / d + b / d);
    DividesTimes(d, a - b, a / d - b / d);
  }

  lemma DividesMultiple(d: int, a: int, k: int)
    requires d > 0 && Divides(d, a)
    ensures Divides(d, a * k)
  {
    assert a == d * (a / d);
    assert a * k == d * ((a / d) * k);
    DividesTimes(d, a * k, (a / d) * k);
  }

  lemma DividesTransitive(c: int, d: int, n: int)
    requires c > 0 && d > 0 && Divides(c, d) && Divides(d, n)
    ensures Divides(c, n)
  {
    assert n == d * (n / d);
    DividesMultiple(c, d, n / d);
  }

  /** A common divisor of a and b is one of b and a % b, and back. */
  lemma ModSameDivisors(d: int, a: int, b: int)
    requires d > 0 && b > 0
    ensures Divides(d, a) && Divides(d, b) <==> Divides(d, b) && Divides(d, a % b)
  {
    assert a == b * (a / b) + a % b;
    if Divides(d, b) {
      DividesMultiple(d, b, a / b);
      if Divides(d, a) {
        DividesSum(d, a, b * (a / b));
      }
      if Divides(d, a % b) {
        DividesSum(d, b * (a / b), a % b);
      }
    }
  }

  ghost predicate IsGcd(g: int, a: int, b: int) {
    g > 0 && Divides(g, a) && Divides(g, b)
    && forall d | d > 0 && Divides(d, a) && Divides(d, b) :: Divides(d, g)
  }

  method PeriodGCD(a: int, b: int) returns (g: int)
    requires a > 0 && b >= 0
    ensures IsGcd(g, a, b)
  {
    var x, y := a, b;
    while y != 0
      invariant x > 0 && y >= 0
      invariant forall d | d > 0 :: (Divides(d, a) && Divides(d, b)) <==> (Divides(d, x) && Divides(d, y))
      decreases y
    {
      forall d | d > 0
        ensures Divides(d, x) && Divides(d, y) <==> Divides(d, y) && Divides(d, x % y)
      {
        ModSameDivisors(d, x, y);
      }
      x, y := y, x % y;
    }
    assert Divides(x, x) && Divides(x, 0) by { DividesTimes(x, x, 1); DividesTimes(x, 0, 0); }
    forall d | d > 0 && Divides(d, a) && Divides(d, b) ensures Divides(d, x) {
    }
    g := x;
  }

  function Usable(ps: seq<Policy>): seq<Policy> {
    if ps == [] then []
    else Usable(ps[..|ps| - 1]) + (if ps[|ps| - 1].period > 0 then [ps[|ps| - 1]] else [])
  }

  /** The policies with a positive period, all of them and no others. */
  lemma {:induction false} UsableMeans(ps: seq<Policy>)
    ensures forall p :: p in Usable(ps) <==> p in ps && p.period > 0
    ensures |Usable(ps)| == HowMany(ps, (p: Policy) => p.period > 0)
  {
    var positive := (p: Policy) => p.period > 0;
    if ps == [] {
      HowManyNone(positive);
    } else {
      var init, last := ps[..|ps| - 1], ps[|ps| - 1];
      UsableMeans(init);
      HowManySnoc(init, last, positive);
      assert ps == init + [last];
    }
  }

  /** The shortest positive period, 0 when there is none. */
  method MinPositivePeriod(ps: seq<Policy>) returns (m: int)
    ensures m >= 0 && (m == 0 <==> Usable(ps) == [])
    ensures m > 0 ==> exists i | 0 <= i < |Usable(ps)| :: Usable(ps)[i].period == m
    ensures forall i | 0 <= i < |Usable(ps)| :: 0 < m <= Usable(ps)[i].period
  {
    m := 0;
    for i := 0 to |ps|
      invariant m >= 0 && (m == 0 <==> Usable(ps[..i]) == [])
      invariant m > 0 ==> exists j | 0 <= j < |Usable(ps[..i])| :: Usable(ps[..i])[j].period == m
      invariant forall j | 0 <= j < |Usable(ps[..i])| :: 0 < m <= Usable(ps[..i])[j].period
    {
      assert ps[..i + 1][..i] == ps[..i];
      ghost var before, now := Usable(ps[..i]), Usable(ps[..i + 1]);
      if ps[i].period > 0 {
        assert now == before + [ps[i]] && now[|before|] == ps[i];
        if m == 0 || ps[i].period < m {
          m := ps[i].period;
        } else {
          ghost var j :| 0 <= j < |before| && before[j].period == m;
          assert now[j] == before[j];
        }
      } else {
        assert now == before;
      }
    }
    assert ps[..|ps|] == ps;
  }

  /** `tick` is the gcd of `step` and all periods. */
  ghost predicate IsTick(tick: int, step: int, ps: seq<Policy>) {
    && tick > 0 && step > 0 && Divides(tick, step)
    && (forall i | 0 <= i < |ps| :: ps[i].period > 0 && Divides(tick, ps[i].period))
    && (forall d | d > 0 && Divides(d, step) && (forall i | 0 <= i < |ps| :: Divides(d, ps[i].period)) ::
          Divides(d, tick))
  }

  method TickAndPolicies(ps: seq<Policy>, step: int) returns (tick: int, usable: seq<Policy>)
    requires step > 0
    ensures usable == Usable(ps) && IsTick(tick, step, usable)
  {
    tick, usable := step, [];
    assert Divides(step, step) by { DividesTimes(step, step, 1); }
    for i := 0 to |ps|
      invariant usable == Usable(ps[..i]) && IsTick(tick, step, usable)
    {
      assert ps[..i + 1][..i] == ps[..i];
      if ps[i].period > 0 {
        var next := PeriodGCD(tick, ps[i].period);
        ghost var more := usable + [ps[i]];
        DividesTransitive(next, tick, step);
        forall j | 0 <= j < |more| ensures more[j].period > 0 && Divides(next, more[j].period) {
          if j < |usable| {
            DividesTransitive(next, tick, usable[j].period);
          }
        }
        forall d | d > 0 && Divides(d, step) && (forall j | 0 <= j < |more| :: Divides(d, more[j].period))
          ensures Divides(d, next)
        {
          assert forall j | 0 <= j < |usable| :: more[j] == usable[j];
          assert more[|usable|] == ps[i];
        }
        tick, usable := next, usable + [ps[i]];
      }
    }
    assert ps[..|ps|] == ps;
  }

  /** Every period boundary from the first step to twenty steps after the delay
      is a point of the grid. */
  lemma BoundariesAreVisited(tick: int, step: int, ps: seq<Policy>, i: nat, m: int, delay: int) returns (k: nat)
    requires IsTick(tick, step, ps) && i < |ps|
    requires step <= m * ps[i].period <= 20 * step
    ensures delay + step + k * tick == delay + m * ps[i].period
    ensures delay + step + k * tick <= delay + step * 20
  {
    DividesMultiple(tick, ps[i].period, m);
    var distance := ps[i].period * m - step;
    DividesSum(tick, ps[i].period * m, step);
    assert distance == tick * (distance / tick);
    k := distance / tick;
  }

  // ------------------------------------------------------------ simulation

  /** What stays the same during one estimate. */
  datatype Setup = Setup(desired: int, up: bool, select: Select, policies: seq<Policy>, bound: Bound)

  datatype State = State(replicas: int, history: seq<Event>, path: seq<Point>)

  function LimitAt(u: Setup, s: State, now: int): Option<int> {
    Limit(s.replicas, u.up, u.select, u.policies, now, s.history, u.bound)
  }

  /** No further than the target. */
  function Next(u: Setup, limit: int): int {
    if u.up then Min(u.desired, limit) else Max(u.desired, limit)
  }

  function Moved(s: State, next: int, now: int): State {
    State(next, s.history + [Event(now, next - s.replicas)],
          if now > MAX_INT32 then s.path else s.path + [Point(now, next)])
  }

  /** The loop from `elapsed` on, looking every `tick` seconds. */
  function Simulate(u: Setup, s: State, elapsed: int, last: int, tick: int): State
    requires tick > 0
    decreases last - elapsed
  {
    if elapsed > last || s.replicas == u.desired then s
    else
      var limit := LimitAt(u, s, elapsed);
      if limit.None? then s
      else
        var next := Next(u, limit.value);
        if next == s.replicas then Simulate(u, s, elapsed + tick, last, tick)
        else if elapsed > MAX_INT32 then Moved(s, next, elapsed)
        else Simulate(u, Moved(s, next, elapsed), elapsed + tick, last, tick)
  }
}
