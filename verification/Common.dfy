/** Small things several parts of the model share. */
module Common {

  datatype Option<+T> = None | Some(value: T)

  /** The items of all pages, in order. */
  function Flatten<T>(pages: seq<seq<T>>): seq<T> {
    if pages == [] then [] else Flatten(pages[..|pages| - 1]) + pages[|pages| - 1]
  }

  lemma Assoc<T>(a: seq<T>, b: seq<T>, c: seq<T>)
    ensures a + (b + c) == (a + b) + c
  {
  }

  /** How many elements have the property: a count of positions. */
  ghost function HowMany<T(!new)>(xs: seq<T>, p: T -> bool): nat {
    |set i | 0 <= i < |xs| && p(xs[i])|
  }

  lemma HowManySnoc<T(!new)>(xs: seq<T>, x: T, p: T -> bool)
    ensures HowMany(xs + [x], p) == HowMany(xs, p) + (if p(x) then 1 else 0)
  {
    var before, after := set i | 0 <= i < |xs| && p(xs[i]), set i | 0 <= i < |xs + [x]| && p((xs + [x])[i]);
    assert after == if p(x) then before + {|xs|} else before;
  }

  lemma HowManyNone<T(!new)>(p: T -> bool)
    ensures HowMany([], p) == 0
  {
    var none: seq<T> := [];
    assert (set i | 0 <= i < |none| && p(none[i])) == {};
  }

  /** The listed values of the chosen elements added up; one unlisted counts 0. */
  ghost function SumOf<T(!new)>(xs: seq<T>, chosen: T -> bool, value: T -> Option<int>): int {
    if xs == [] then 0
    else
      var rest, x := SumOf(xs[..|xs| - 1], chosen, value), xs[|xs| - 1];
      if chosen(x) && value(x).Some? then rest + value(x).value else rest
  }

  lemma SumOfSnoc<T(!new)>(xs: seq<T>, x: T, chosen: T -> bool, value: T -> Option<int>)
    ensures SumOf(xs + [x], chosen, value)
         == SumOf(xs, chosen, value) + (if chosen(x) && value(x).Some? then value(x).value else 0)
  {
    assert (xs + [x])[..|xs|] == xs;
  }

  lemma {:induction false} SumOfSame<T(!new)>(xs: seq<T>, p: T -> bool, q: T -> bool, f: T -> Option<int>,
                                              g: T -> Option<int>)
    requires forall x | x in xs :: p(x) == q(x) && f(x) == g(x)
    ensures SumOf(xs, p, f) == SumOf(xs, q, g)
  {
    if xs != [] {
      SumOfSame(xs[..|xs| - 1], p, q, f, g);
    }
  }

  /** The chosen elements of a list, in its order. */
  ghost predicate Picks<T(!new)>(xs: seq<T>, chosen: T -> bool, ys: seq<T>) {
    && |ys| == HowMany(xs, chosen)
    && forall k | 0 <= k < |xs| && chosen(xs[k]) :: Holds(ys, HowMany(xs[..k], chosen), xs[k])
  }

  ghost predicate Holds<T(!new)>(ys: seq<T>, i: nat, y: T) {
    i < |ys| && ys[i] == y
  }

  lemma PicksNone<T(!new)>(chosen: T -> bool)
    ensures Picks([], chosen, [])
  {
    HowManyNone(chosen);
  }

  lemma PicksSnoc<T(!new)>(xs: seq<T>, chosen: T -> bool, ys: seq<T>, x: T)
    requires Picks(xs, chosen, ys)
    ensures Picks(xs + [x], chosen, if chosen(x) then ys + [x] else ys)
  {
    HowManySnoc(xs, x, chosen);
    hide HowMany;
    var all := xs + [x];
    forall k | 0 <= k < |all| && chosen(all[k])
      ensures Holds(if chosen(x) then ys + [x] else ys, HowMany(all[..k], chosen), all[k])
    {
      assert all[..k] == xs[..k];
      assert k < |xs| ==> Holds(ys, HowMany(xs[..k], chosen), xs[k]);
      assert k == |xs| ==> xs[..k] == xs;
    }
  }

  /** How many of the first `n` positions have the property. */
  ghost function Positions(n: nat, p: nat -> bool): nat {
    |set i: nat | i < n && p(i)|
  }

  lemma PositionsStep(n: nat, p: nat -> bool)
    ensures Positions(n + 1, p) == Positions(n, p) + (if p(n) then 1 else 0)
  {
    var before, after := set i: nat | i < n && p(i), set i: nat | i < n + 1 && p(i);
    assert after == if p(n) then before + {n} else before;
  }

  lemma PositionsNone(p: nat -> bool)
    ensures Positions(0, p) == 0
  {
    assert (set i: nat | i < 0 && p(i)) == {};
  }
}
