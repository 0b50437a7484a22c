/** Stable sorting by an integer key: what sort.SliceStable and sort.Search
    promise, as functions, together with the facts that let a sorted result be
    filtered, extended and recognised without sorting again. */
module StableSort {
  import opened Common

  ghost predicate Sorted<T(!new)>(xs: seq<T>, key: T -> int) {
    forall i, j | 0 <= i < j < |xs| :: key(xs[i]) <= key(xs[j])
  }

  /** The smallest index whose key exceeds `bound`, or the length. On a sorted
      sequence this is the answer of sort.Search for that condition. */
  function UpperBound<T(!new)>(xs: seq<T>, bound: int, key: T -> int): (p: nat)
    ensures p <= |xs|
  {
    if xs == [] || key(xs[0]) > bound then 0 else 1 + UpperBound(xs[1..], bound, key)
  }

  lemma {:induction false} UpperBoundSplits<T(!new)>(xs: seq<T>, bound: int, key: T -> int)
    ensures var p := UpperBound(xs, bound, key);
      && (forall i | 0 <= i < p :: key(xs[i]) <= bound)
      && (p < |xs| ==> key(xs[p]) > bound)
  {
    if xs != [] && key(xs[0]) <= bound {
      UpperBoundSplits(xs[1..], bound, key);
      var p := UpperBound(xs, bound, key);
      forall i | 0 <= i < p ensures key(xs[i]) <= bound {
        if i > 0 { assert xs[i] == xs[1..][i - 1]; }
      }
    }
  }

  /** `x` goes after every element with the same key. */
  function Insert<T(!new)>(xs: seq<T>, x: T, key: T -> int): seq<T> {
    var p := UpperBound(xs, key(x), key);
    xs[..p] + [x] + xs[p..]
  }

  function Sort<T(!new)>(xs: seq<T>, key: T -> int): seq<T> {
    if xs == [] then [] else Insert(Sort(xs[..|xs| - 1], key), xs[|xs| - 1], key)
  }

  /** The elements whose key exceeds `bound`, in order. */
  function Above<T(!new)>(xs: seq<T>, bound: int, key: T -> int): seq<T> {
    if xs == [] then []
    else
      var last := xs[|xs| - 1];
      Above(xs[..|xs| - 1], bound, key) + (if key(last) > bound then [last] else [])
  }

  /** The elements whose key is exactly `k`, in order. */
  function At<T(!new)>(xs: seq<T>, k: int, key: T -> int): seq<T> {
    if xs == [] then []
    else
      var last := xs[|xs| - 1];
      At(xs[..|xs| - 1], k, key) + (if key(last) == k then [last] else [])
  }

  // ---------------------------------------------------------------- filters

  lemma {:induction false} AboveMembers<T(!new)>(xs: seq<T>, bound: int, key: T -> int)
    ensures forall x :: x in Above(xs, bound, key) <==> x in xs && key(x) > bound
  {
    if xs != [] {
      AboveMembers(xs[..|xs| - 1], bound, key);
      assert xs == xs[..|xs| - 1] + [xs[|xs| - 1]];
    }
  }

  lemma {:induction false} SnocAbove<T(!new)>(xs: seq<T>, x: T, bound: int, key: T -> int)
    ensures Above(xs + [x], bound, key) == Above(xs, bound, key) + (if key(x) > bound then [x] else [])
  {
    assert (xs + [x])[..|xs|] == xs;
  }

  lemma {:induction false} SnocAt<T(!new)>(xs: seq<T>, x: T, k: int, key: T -> int)
    ensures At(xs + [x], k, key) == At(xs, k, key) + (if key(x) == k then [x] else [])
  {
    assert (xs + [x])[..|xs|] == xs;
  }

  lemma {:induction false} AboveConcat<T(!new)>(xs: seq<T>, ys: seq<T>, bound: int, key: T -> int)
    ensures Above(xs + ys, bound, key) == Above(xs, bound, key) + Above(ys, bound, key)
  {
    assert ys == [] ==> Above(ys, bound, key) == [];
    hide Above;
    if ys == [] {
      assert xs + ys == xs && Above(xs, bound, key) + [] == Above(xs, bound, key);
    } else {
      var init, last := ys[..|ys| - 1], ys[|ys| - 1];
      AboveConcat(xs, init, bound, key);
      SnocAbove(xs + init, last, bound, key);
      SnocAbove(init, last, bound, key);
      assert ys == init + [last];
      Assoc(xs, init, [last]);
      Assoc(Above(xs, bound, key), Above(init, bound, key), if key(last) > bound then [last] else []);
    }
  }

  lemma {:induction false} AtConcat<T(!new)>(xs: seq<T>, ys: seq<T>, k: int, key: T -> int)
    ensures At(xs + ys, k, key) == At(xs, k, key) + At(ys, k, key)
  {
    assert ys == [] ==> At(ys, k, key) == [];
    hide At;
    if ys == [] {
      assert xs + ys == xs && At(xs, k, key) + [] == At(xs, k, key);
    } else {
      var init, last := ys[..|ys| - 1], ys[|ys| - 1];
      AtConcat(xs, init, k, key);
      SnocAt(xs + init, last, k, key);
      SnocAt(init, last, k, key);
      assert ys == init + [last];
      Assoc(xs, init, [last]);
      Assoc(At(xs, k, key), At(init, k, key), if key(last) == k then [last] else []);
    }
  }

  lemma {:induction false} AboveAll<T(!new)>(xs: seq<T>, bound: int, key: T -> int)
    requires forall i | 0 <= i < |xs| :: key(xs[i]) > bound
    ensures Above(xs, bound, key) == xs
  {
    if xs != [] {
      var init, last := xs[..|xs| - 1], xs[|xs| - 1];
      AboveAll(init, bound, key);
      assert xs == init + [last];
    }
  }

  lemma {:induction false} AboveNone<T(!new)>(xs: seq<T>, bound: int, key: T -> int)
    requires forall i | 0 <= i < |xs| :: key(xs[i]) <= bound
    ensures Above(xs, bound, key) == []
  {
    if xs != [] {
      AboveNone(xs[..|xs| - 1], bound, key);
    }
  }

  lemma {:induction false} AboveAbove<T(!new)>(xs: seq<T>, b: int, c: int, key: T -> int)
    ensures Above(Above(xs, b, key), c, key) == Above(xs, if b < c then c else b, key)
  {
    if xs != [] {
      var init, last := xs[..|xs| - 1], xs[|xs| - 1];
      AboveAbove(init, b, c, key);
      AboveConcat(Above(init, b, key), if key(last) > b then [last] else [], c, key);
    }
  }

  lemma {:induction false} AtAbove<T(!new)>(xs: seq<T>, bound: int, k: int, key: T -> int)
    ensures At(Above(xs, bound, key), k, key) == if k > bound then At(xs, k, key) else []
  {
    if xs != [] {
      var init, last := xs[..|xs| - 1], xs[|xs| - 1];
      AtAbove(init, bound, k, key);
      AtConcat(Above(init, bound, key), if key(last) > bound then [last] else [], k, key);
    }
  }

  lemma {:induction false} AtNone<T(!new)>(xs: seq<T>, k: int, key: T -> int)
    requires forall i | 0 <= i < |xs| :: key(xs[i]) != k
    ensures At(xs, k, key) == []
  {
    if xs != [] {
      AtNone(xs[..|xs| - 1], k, key);
    }
  }

  lemma {:induction false} AtMembers<T(!new)>(xs: seq<T>, k: int, key: T -> int)
    ensures forall i | 0 <= i < |At(xs, k, key)| :: At(xs, k, key)[i] in xs && key(At(xs, k, key)[i]) == k
  {
    if xs != [] {
      AtMembers(xs[..|xs| - 1], k, key);
      assert xs == xs[..|xs| - 1] + [xs[|xs| - 1]];
    }
  }

  /** On a sorted sequence, filtering is dropping the prefix sort.Search finds. */
  lemma AboveIsSuffix<T(!new)>(xs: seq<T>, bound: int, key: T -> int)
    requires Sorted(xs, key)
    ensures Above(xs, bound, key) == xs[UpperBound(xs, bound, key)..]
  {
    var p := UpperBound(xs, bound, key);
    UpperBoundSplits(xs, bound, key);
    hide UpperBound, Above;
    SplitAbove(xs[..p], xs[p..], bound, key);
    assert xs == xs[..p] + xs[p..];
  }

  lemma SplitAbove<T(!new)>(low: seq<T>, high: seq<T>, bound: int, key: T -> int)
    requires forall i | 0 <= i < |low| :: key(low[i]) <= bound
    requires forall i | 0 <= i < |high| :: key(high[i]) > bound
    ensures Above(low + high, bound, key) == high
  {
    AboveConcat(low, high, bound, key);
    AboveNone(low, bound, key);
    AboveAll(high, bound, key);
  }

  // ------------------------------------------------------------ stable sort

  lemma InsertSorted<T(!new)>(xs: seq<T>, x: T, key: T -> int)
    requires Sorted(xs, key)
    ensures Sorted(Insert(xs, x, key), key)
  {
    UpperBoundSplits(xs, key(x), key);
  }

  lemma {:induction false} SortIsSorted<T(!new)>(xs: seq<T>, key: T -> int)
    ensures Sorted(Sort(xs, key), key)
  {
    if xs != [] {
      SortIsSorted(xs[..|xs| - 1], key);
      InsertSorted(Sort(xs[..|xs| - 1], key), xs[|xs| - 1], key);
    }
  }

  lemma {:induction false} SortPermutes<T(!new)>(xs: seq<T>, key: T -> int)
    ensures multiset(Sort(xs, key)) == multiset(xs)
    ensures |Sort(xs, key)| == |xs|
    ensures forall x :: x in Sort(xs, key) <==> x in xs
  {
    if xs != [] {
      var init, last := xs[..|xs| - 1], xs[|xs| - 1];
      SortPermutes(init, key);
      var s := Sort(init, key);
      var p := UpperBound(s, key(last), key);
      assert s == s[..p] + s[p..];
      assert xs == init + [last];
      assert forall x :: x in Sort(xs, key) <==> x in s[..p] || x == last || x in s[p..];
    }
  }

  /** `x` is placed after its equals, before everything larger. */
  lemma InsertAt<T(!new)>(xs: seq<T>, x: T, k: int, key: T -> int)
    requires Sorted(xs, key)
    ensures At(Insert(xs, x, key), k, key) == At(xs, k, key) + (if key(x) == k then [x] else [])
  {
    var p := UpperBound(xs, key(x), key);
    UpperBoundSplits(xs, key(x), key);
    AtAround(xs[..p], x, xs[p..], k, key);
    assert xs == xs[..p] + xs[p..];
  }

  lemma AtAround<T(!new)>(front: seq<T>, x: T, back: seq<T>, k: int, key: T -> int)
    requires forall i | 0 <= i < |back| :: key(back[i]) > key(x)
    ensures At(front + [x] + back, k, key) == At(front + back, k, key) + (if key(x) == k then [x] else [])
  {
    AtConcat(front + [x], back, k, key);
    SnocAt(front, x, k, key);
    AtConcat(front, back, k, key);
    if key(x) == k {
      AtNone(back, k, key);
    }
  }

  /** Equal keys keep their order. */
  lemma {:induction false} SortIsStable<T(!new)>(xs: seq<T>, k: int, key: T -> int)
    ensures At(Sort(xs, key), k, key) == At(xs, k, key)
  {
    if xs != [] {
      SortIsStable(xs[..|xs| - 1], k, key);
      SortIsSorted(xs[..|xs| - 1], key);
      InsertAt(Sort(xs[..|xs| - 1], key), xs[|xs| - 1], k, key);
    }
  }

  /** The last element of a nonempty sequence is the last of its key. */
  lemma LastAt<T(!new)>(xs: seq<T>, key: T -> int)
    requires xs != []
    ensures var last := xs[|xs| - 1];
      forall k :: At(xs, k, key) == At(xs[..|xs| - 1], k, key) + (if key(last) == k then [last] else [])
  {
  }

  /** Sorted order and the order among equals determine a sequence. */
  lemma {:induction false} SortedUnique<T(!new)>(xs: seq<T>, ys: seq<T>, key: T -> int)
    requires Sorted(xs, key) && Sorted(ys, key)
    requires forall k :: At(xs, k, key) == At(ys, k, key)
    ensures xs == ys
  {
    EmptyTogether(xs, ys, key);
    EmptyTogether(ys, xs, key);
    if xs != [] {
      var xi, x := xs[..|xs| - 1], xs[|xs| - 1];
      var yi, y := ys[..|ys| - 1], ys[|ys| - 1];
      LastAt(xs, key);
      LastAt(ys, key);
      LargestKey(xs, ys, key);
      LargestKey(ys, xs, key);
      assert key(x) == key(y);
      assert At(xs, key(x), key) == At(ys, key(x), key);
      assert At(xs, key(x), key) == At(xi, key(x), key) + [x];
      assert At(ys, key(x), key) == At(yi, key(x), key) + [y];
      assert (At(xi, key(x), key) + [x])[|At(xi, key(x), key)|] == x;
      assert (At(yi, key(x), key) + [y])[|At(yi, key(x), key)|] == y;
      forall k ensures At(xi, k, key) == At(yi, k, key) {
        assert At(xs, k, key) == At(ys, k, key);
        var tx := if key(x) == k then [x] else [];
        var ty := if key(y) == k then [y] else [];
        assert |tx| == |ty|;
        assert (At(xi, k, key) + tx)[..|At(xi, k, key)|] == At(xi, k, key);
        assert (At(yi, k, key) + ty)[..|At(yi, k, key)|] == At(yi, k, key);
      }
      SortedUnique(xi, yi, key);
      assert xs == xi + [x] && ys == yi + [y];
    }
  }

  lemma EmptyTogether<T(!new)>(xs: seq<T>, ys: seq<T>, key: T -> int)
    ensures xs == [] && (forall k :: At(xs, k, key) == At(ys, k, key)) ==> ys == []
  {
    if ys != [] {
      LastAt(ys, key);
      assert At(ys, key(ys[|ys| - 1]), key) != [];
    }
  }

  lemma LargestKey<T(!new)>(xs: seq<T>, ys: seq<T>, key: T -> int)
    requires Sorted(ys, key) && xs != [] && ys != []
    requires forall k :: At(xs, k, key) == At(ys, k, key)
    ensures key(xs[|xs| - 1]) <= key(ys[|ys| - 1])
  {
    var k := key(xs[|xs| - 1]);
    LastAt(xs, key);
    AtMembers(ys, k, key);
    assert At(xs, k, key) == At(ys, k, key);
    assert At(ys, k, key)[0] in ys;
  }

  ghost predicate SameAtEachKey<T(!new)>(xs: seq<T>, ys: seq<T>, key: T -> int) {
    forall k :: At(xs, k, key) == At(ys, k, key)
  }

  /** Sort is the only sorted rearrangement that keeps equals in order. */
  lemma SortCharacterized<T(!new)>(xs: seq<T>, ys: seq<T>, key: T -> int)
    ensures ys == Sort(xs, key) <==> Sorted(ys, key) && SameAtEachKey(ys, xs, key)
  {
    var s := Sort(xs, key);
    SortIsSorted(xs, key);
    forall k ensures At(s, k, key) == At(xs, k, key) {
      SortIsStable(xs, k, key);
    }
    assert SameAtEachKey(s, xs, key);
    if Sorted(ys, key) && SameAtEachKey(ys, xs, key) {
      forall k ensures At(ys, k, key) == At(s, k, key) {
        assert At(ys, k, key) == At(xs, k, key);
      }
      SortedUnique(ys, s, key);
    }
  }

  lemma SortOfSorted<T(!new)>(xs: seq<T>, key: T -> int)
    requires Sorted(xs, key)
    ensures Sort(xs, key) == xs
  {
    SortCharacterized(xs, xs, key);
  }

  /** Filtering commutes with stable sorting. */
  lemma AboveOfSort<T(!new)>(xs: seq<T>, bound: int, key: T -> int)
    ensures Above(Sort(xs, key), bound, key) == Sort(Above(xs, bound, key), key)
  {
    var s := Sort(xs, key);
    SortIsSorted(xs, key);
    AboveIsSuffix(s, bound, key);
    forall k ensures At(Above(s, bound, key), k, key) == At(Above(xs, bound, key), k, key) {
      AtAbove(s, bound, k, key);
      AtAbove(xs, bound, k, key);
      SortIsStable(xs, k, key);
    }
    SortCharacterized(Above(xs, bound, key), Above(s, bound, key), key);
  }

  /** Inserting commutes with filtering. */
  lemma AboveOfInsert<T(!new)>(xs: seq<T>, x: T, bound: int, key: T -> int)
    requires Sorted(xs, key)
    ensures Above(Insert(xs, x, key), bound, key)
         == if key(x) > bound then Insert(Above(xs, bound, key), x, key) else Above(xs, bound, key)
  {
    var a := Above(xs, bound, key);
    calc {
      Above(Insert(xs, x, key), bound, key);
      { SortOfSorted(xs, key); SortSnoc(xs, x, key); }
      Above(Sort(xs + [x], key), bound, key);
      { AboveOfSort(xs + [x], bound, key); }
      Sort(Above(xs + [x], bound, key), key);
      { SnocAbove(xs, x, bound, key); }
      Sort(a + (if key(x) > bound then [x] else []), key);
    }
    SortOfSorted(xs, key);
    AboveOfSort(xs, bound, key);
    if key(x) > bound {
      SortSnoc(a, x, key);
    } else {
      assert a + [] == a;
    }
  }

  lemma SortSnoc<T(!new)>(xs: seq<T>, x: T, key: T -> int)
    ensures Sort(xs + [x], key) == Insert(Sort(xs, key), x, key)
  {
    assert (xs + [x])[..|xs|] == xs;
  }
}
