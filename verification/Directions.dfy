/** Up and down moves of a replica count over time, and what dropping some of
    the moves can do to the number of direction flips. */
module Directions {

  function Sign(from: int, to: int): int {
    if to > from then 1 else if to < from then -1 else 0
  }

  /** One entry for every change of value: 1 for a rise, -1 for a fall. */
  function Moves(xs: seq<int>): seq<int> {
    if |xs| <= 1 then []
    else
      var n := |xs|;
      Moves(xs[..n - 1]) + (if xs[n - 1] == xs[n - 2] then [] else [Sign(xs[n - 2], xs[n - 1])])
  }

  /** How often neighbouring moves differ. */
  function Flips(ms: seq<int>): nat {
    if |ms| <= 1 then 0
    else Flips(ms[..|ms| - 1]) + (if ms[|ms| - 1] != ms[|ms| - 2] then 1 else 0)
  }

  function Falls(ms: seq<int>): nat {
    if ms == [] then 0
    else Falls(ms[..|ms| - 1]) + (if ms[|ms| - 1] == -1 then 1 else 0)
  }

  /** `a` is obtained from `b` by leaving entries out. */
  ghost predicate Subsequence(a: seq<int>, b: seq<int>) {
    a == [] ||
    (b != [] &&
      (Subsequence(a, b[..|b| - 1]) ||
       (a[|a| - 1] == b[|b| - 1] && Subsequence(a[..|a| - 1], b[..|b| - 1]))))
  }

  lemma SnocMoves(xs: seq<int>, x: int)
    requires xs != []
    ensures Moves(xs + [x]) == Moves(xs) + (if x == xs[|xs| - 1] then [] else [Sign(xs[|xs| - 1], x)])
  {
    assert (xs + [x])[..|xs|] == xs;
  }

  lemma {:induction false} MovesAreSigns(xs: seq<int>)
    ensures forall i | 0 <= i < |Moves(xs)| :: Moves(xs)[i] == 1 || Moves(xs)[i] == -1
  {
    if |xs| > 1 { MovesAreSigns(xs[..|xs| - 1]); }
  }

  lemma {:induction false} SubsequenceMore(a: seq<int>, b: seq<int>, more: seq<int>)
    requires Subsequence(a, b)
    ensures Subsequence(a, b + more)
    decreases |more|
  {
    if more == [] {
      assert b + more == b;
    } else {
      SubsequenceMore(a, b, more[..|more| - 1]);
      assert (b + more)[..|b + more| - 1] == b + more[..|more| - 1];
    }
  }

  lemma {:induction false} SubsequenceExtend(a: seq<int>, b: seq<int>, more: seq<int>, s: int)
    requires Subsequence(a, b) && s in more
    ensures Subsequence(a + [s], b + more)
    decreases |more|
  {
    var init := more[..|more| - 1];
    assert (b + more)[..|b + more| - 1] == b + init;
    if more[|more| - 1] == s {
      SubsequenceMore(a, b, init);
      assert (a + [s])[..|a|] == a;
    } else {
      SubsequenceExtend(a, b, init, s);
    }
  }

  lemma {:induction false} SubsequenceShorter(a: seq<int>, b: seq<int>)
    requires Subsequence(a, b)
    ensures |a| <= |b|
    decreases |b|
  {
    if a != [] {
      var bi := b[..|b| - 1];
      if Subsequence(a, bi) {
        SubsequenceShorter(a, bi);
      } else {
        SubsequenceShorter(a[..|a| - 1], bi);
      }
    }
  }

  /** Leaving moves out never creates a flip; ending on a different move costs
      the longer sequence at least one. */
  lemma {:induction false} SubsequenceFlips(a: seq<int>, b: seq<int>)
    requires Subsequence(a, b)
    ensures Flips(a) <= Flips(b)
    ensures a != [] && b != [] && a[|a| - 1] != b[|b| - 1] ==> Flips(a) + 1 <= Flips(b)
    decreases |b|
  {
    if a != [] {
      var bi := b[..|b| - 1];
      if Subsequence(a, bi) {
        SubsequenceFlips(a, bi);
        SubsequenceShorter(a, bi);
      } else {
        SubsequenceFlips(a[..|a| - 1], bi);
        SubsequenceShorter(a[..|a| - 1], bi);
      }
    }
  }

  /** Every flip touches a fall, and a fall touches at most two flips. */
  lemma {:induction false} FlipsBoundedByFalls(ms: seq<int>)
    requires forall i | 0 <= i < |ms| :: ms[i] == 1 || ms[i] == -1
    ensures Flips(ms) <= 2 * Falls(ms)
    ensures ms != [] && ms[|ms| - 1] == -1 ==> Flips(ms) <= 2 * Falls(ms) - 1
  {
    if ms != [] {
      FlipsBoundedByFalls(ms[..|ms| - 1]);
    }
  }

  /** Between two points of a run, some move goes in the direction of the
      difference. */
  lemma {:induction false} MovesBetween(xs: seq<int>, j: nat, n: nat) returns (more: seq<int>)
    requires j <= n < |xs|
    ensures Moves(xs[..n + 1]) == Moves(xs[..j + 1]) + more
    ensures xs[j] != xs[n] ==> Sign(xs[j], xs[n]) in more
    decreases n - j
  {
    if j == n {
      more := [];
    } else {
      more := MovesBetween(xs, j, n - 1);
      assert xs[..n + 1] == xs[..n] + [xs[n]];
      SnocMoves(xs[..n], xs[n]);
      var last := if xs[n] == xs[n - 1] then [] else [Sign(xs[n - 1], xs[n])];
      assert xs[j] != xs[n] ==> Sign(xs[j], xs[n]) in more || Sign(xs[j], xs[n]) in last;
      more := more + last;
    }
  }

  /** `ys` lags behind a monotone image of `xs`: each entry is the image of its
      own entry of xs, or repeats the entry before. */
  ghost predicate Lags(ys: seq<int>, xs: seq<int>, f: int -> int) {
    && |ys| == |xs|
    && forall i | 0 <= i < |ys| :: ys[i] == f(xs[i]) || (i > 0 && ys[i] == ys[i - 1])
  }

  ghost predicate Monotone(f: int -> int) {
    forall a, b | a <= b :: f(a) <= f(b)
  }

  lemma MonotoneSign(f: int -> int, a: int, b: int)
    requires Monotone(f) && f(a) != f(b)
    ensures a != b && Sign(a, b) == Sign(f(a), f(b))
  {
    assert a <= b ==> f(a) <= f(b);
    assert b <= a ==> f(b) <= f(a);
  }

  lemma LagsBefore(ys: seq<int>, xs: seq<int>, f: int -> int)
    requires Lags(ys, xs, f) && |ys| > 1
    ensures var n := |ys| - 1;
      && Lags(ys[..n], xs[..n], f)
      && (ys[n] == f(xs[n]) || ys[n] == ys[n - 1])
      && |xs| == |ys|
  {
  }

  lemma {:induction false} LaggingMoves(ys: seq<int>, xs: seq<int>, f: int -> int) returns (j: nat)
    requires Lags(ys, xs, f) && Monotone(f) && ys != []
    ensures j < |xs| && ys[|ys| - 1] == f(xs[j])
    ensures Subsequence(Moves(ys), Moves(xs[..j + 1]))
    decreases |ys|
  {
    var n := |ys| - 1;
    if n == 0 {
      j := 0;
    } else {
      LagsBefore(ys, xs, f);
      hide Lags, Monotone, Moves, Subsequence;
      var i := LaggingMoves(ys[..n], xs[..n], f);
      assert xs[..n][..i + 1] == xs[..i + 1];
      j := if ys[n] == ys[n - 1] then i else n;
      LaggingStep(ys, xs, f, i, n);
    }
  }

  lemma LaggingStep(ys: seq<int>, xs: seq<int>, f: int -> int, i: nat, n: nat)
    requires Monotone(f) && 0 < n == |ys| - 1 < |xs| && i < n
    requires ys[n - 1] == f(xs[i]) && (ys[n] == f(xs[n]) || ys[n] == ys[n - 1])
    requires Subsequence(Moves(ys[..n]), Moves(xs[..i + 1]))
    ensures Subsequence(Moves(ys), Moves(xs[..if ys[n] == ys[n - 1] then i + 1 else n + 1]))
  {
    hide Subsequence, Moves, Monotone;
    assert ys == ys[..n] + [ys[n]];
    SnocMoves(ys[..n], ys[n]);
    if ys[n] == ys[n - 1] {
      assert Moves(ys[..n]) + [] == Moves(ys[..n]);
    } else {
      MonotoneSign(f, xs[i], xs[n]);
      var more := MovesBetween(xs, i, n);
      SubsequenceExtend(Moves(ys[..n]), Moves(xs[..i + 1]), more, Sign(xs[i], xs[n]));
    }
  }

  /** A lagging monotone image oscillates no more than the original. */
  lemma LaggingNeverOscillatesMore(ys: seq<int>, xs: seq<int>, f: int -> int)
    requires Lags(ys, xs, f) && Monotone(f)
    ensures Subsequence(Moves(ys), Moves(xs))
    ensures |Moves(ys)| <= |Moves(xs)| && Flips(Moves(ys)) <= Flips(Moves(xs))
  {
    if ys != [] {
      var j := LaggingMoves(ys, xs, f);
      var more := MovesBetween(xs, j, |xs| - 1);
      assert xs[..|xs|] == xs;
      SubsequenceMore(Moves(ys), Moves(xs[..j + 1]), more);
    }
    SubsequenceShorter(Moves(ys), Moves(xs));
    SubsequenceFlips(Moves(ys), Moves(xs));
  }
}
