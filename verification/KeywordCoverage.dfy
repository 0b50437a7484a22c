/** When a keyword pass has really removed every value after its keyword. It
    skips a value that already starts like a placeholder, and such a value can
    hide another occurrence of the keyword. */
module KeywordCoverage {
  import opened Common
  import opened KeywordRedaction

  /** A value stands here, and is not a placeholder. */
  predicate Exposed(v: string) {
    v != "" && !Stops(v[0]) && !StartsRedacted(v)
  }

  /** The keyword stands at `i`, followed by an exposed value. */
  predicate ExposedAt(s: string, i: nat, k: string) {
    At(s, i, k) && Exposed(s[i + |k|..])
  }

  ghost predicate CoveredBefore(s: string, n: nat, k: string) {
    forall i: nat | i < n :: !ExposedAt(s, i, k)
  }

  /** Every occurrence of the keyword is followed by no value or a placeholder. */
  ghost predicate Covered(s: string, k: string) {
    forall i: nat :: !ExposedAt(s, i, k)
  }

  ghost predicate NoBorder(k: string) {
    forall d | 0 < d < |k| :: k[d..] != k[..|k| - d]
  }

  /** Neither overlaps itself nor a placeholder. */
  ghost predicate WellChosen(k: string) {
    && k != "" && '[' !in k && ']' !in k
    && (forall j: nat :: !At(Placeholder(), j, k))
    && NoBorder(k)
  }

  /** No value the pass keeps holds the start of an occurrence with an exposed
      value of its own. */
  ghost predicate HidesNothing(s: string, k: string)
    requires k != ""
    decreases |s|
  {
    IndexFits(s, k);
    var idx := Index(s, k);
    idx < 0 || (
      var start := idx + |k|;
      var end := start + ValueLength(s[start..]);
      && (StartsRedacted(s[start..]) ==> forall j: nat | start <= j < end :: !ExposedAt(s, j, k))
      && HidesNothing(Left(s, k, idx), k))
  }

  // ------------------------------------------------------------ occurrences

  lemma AtAfter(x: string, t: string, i: nat, k: string)
    requires |x| <= i
    ensures At(x + t, i, k) == At(t, i - |x|, k)
    ensures ExposedAt(x + t, i, k) == ExposedAt(t, i - |x|, k)
  {
    if i + |k| <= |x + t| {
      assert (x + t)[i..i + |k|] == t[i - |x|..i - |x| + |k|];
      assert (x + t)[i + |k|..] == t[i - |x| + |k|..];
    }
  }

  lemma CoveredConcat(x: string, t: string, k: string)
    ensures Covered(x + t, k) <==> CoveredBefore(x + t, |x|, k) && Covered(t, k)
  {
    hide At, ExposedAt;
    forall i: nat ensures i >= |x| ==> ExposedAt(x + t, i, k) == ExposedAt(t, i - |x|, k) {
      if i >= |x| {
        AtAfter(x, t, i, k);
      }
    }
    if Covered(x + t, k) {
      forall i: nat ensures !ExposedAt(t, i, k) {
        assert !ExposedAt(x + t, i + |x|, k);
      }
    }
  }

  lemma OverlapIsBorder(s: string, i: nat, j: nat, k: string)
    requires At(s, i, k) && At(s, j, k) && i < j < i + |k|
    ensures k[j - i..] == k[..|k| - (j - i)]
  {
    var d := j - i;
    assert k[d..] == s[i..i + |k|][d..] == s[j..i + |k|];
    assert k[..|k| - d] == s[j..j + |k|][..|k| - d] == s[j..i + |k|];
  }

  /** Occurrences of a keyword without border do not overlap. */
  lemma Apart(s: string, i: nat, j: nat, k: string)
    requires NoBorder(k) && At(s, i, k) && At(s, j, k) && i < j
    ensures i + |k| <= j
  {
    if j < i + |k| {
      OverlapIsBorder(s, i, j, k);
    }
  }

  /** Up to the end of the first occurrence, that is the only one. */
  lemma CoveredAtFirst(a: string, y: string, k: string)
    requires WellChosen(k) && |a| >= |k| && Index(a + y, k) == |a| - |k|
    ensures CoveredBefore(a + y, |a|, k) <==> !Exposed(y)
  {
    var s, idx := a + y, |a| - |k|;
    IndexFits(s, k);
    assert s[idx + |k|..] == y;
    assert ExposedAt(s, idx, k) == Exposed(y);
    hide Index, Exposed;
    forall i: nat | i < |a| ensures At(s, i, k) ==> i == idx {
      if i > idx && At(s, i, k) {
        Apart(s, idx, i, k);
      }
    }
  }

  lemma NoneAcrossPlaceholder(a: string, y: string, i: nat, k: string)
    requires WellChosen(k) && |a| <= i < |a + Placeholder()|
    ensures !At(a + Placeholder() + y, i, k)
  {
    var p := Placeholder();
    var s := a + p + y;
    var j := i - |a|;
    assert !At(p, j, k);
    if i + |k| <= |s| {
      if j + |k| <= |p| {
        assert s[i..i + |k|] == p[j..j + |k|];
      } else {
        var last := |a| + |p| - 1;
        assert s[last] == ']';
        assert s[i..i + |k|][last - i] == ']';
      }
    }
  }

  // ------------------------------------------------------- the kept branch

  /** The pass leaves the text alone through its first occurrence. */
  lemma SameThroughFirst(s: string, k: string) returns (common: string, x: string, y: string)
    requires k != ""
    ensures s == common + x && Replace(s, k) == common + y
    ensures Index(s, k) < 0 ==> x == y
    ensures Index(s, k) >= 0 ==> |common| == Index(s, k) + |k| && At(common, Index(s, k), k)
  {
    if Index(s, k) < 0 {
      common, x, y := s, "", "";
    } else {
      var a, v, rest := Split(s, k);
      StepAt(a, v, rest, k);
      IndexFits(s, k);
      hide Replace, Index;
      common, x, y := a, v + rest, Kept(v, rest) + Replace(rest, k);
      AtPrefix(a, v + rest, "", |a| - |k|, k);
      Assoc(a, Kept(v, rest), Replace(rest, k));
      assert a + "" == a;
    }
  }

  /** What follows the keyword is exposed or not by what is common. */
  lemma ExposedByCommon(c: string, x: string, y: string, k: string)
    requires WellChosen(k) && |c| >= |k| && c[|c| - |k|..] == k
    ensures Exposed(c + x) == Exposed(c + y)
  {
    if |c| < 9 {
      MarkTooLong(c, x, k);
      MarkTooLong(c, y, k);
    } else {
      assert (c + x)[..9] == c[..9] == (c + y)[..9];
    }
    assert (c + x)[0] == c[0] == (c + y)[0];
  }

  lemma MarkTooLong(c: string, x: string, k: string)
    requires WellChosen(k) && |k| <= |c| < 9 && c[|c| - |k|..] == k
    ensures !StartsRedacted(c + x)
  {
    if StartsRedacted(c + x) {
      MarkStart(c, x, k);
    }
  }

  lemma MarkStart(c: string, x: string, k: string)
    requires StartsRedacted(c + x) && |k| <= |c| < 9 && c[|c| - |k|..] == k
    ensures At(Placeholder(), |c| - |k|, k)
  {
    var p := Placeholder();
    forall i | 0 <= i < |c| ensures c[i] == p[i] {
      assert (c + x)[i] == c[i];
    }
    assert p[|c| - |k|..|c|] == c[|c| - |k|..];
  }

  /** An occurrence that starts in a kept value is there, and exposed, before the
      pass exactly when it is after. */
  lemma HiddenIsKept(front: string, rest: string, i: nat, k: string)
    requires WellChosen(k) && i < |front|
    ensures ExposedAt(front + rest, i, k) == ExposedAt(front + Replace(rest, k), i, k)
  {
    hide Replace, Index, Exposed;
    var common, x, y := SameThroughFirst(rest, k);
    if Index(rest, k) >= 0 {
      var p := front + common;
      var first := |front| + Index(rest, k);
      Assoc(front, common, x);
      Assoc(front, common, y);
      AtPrefix(p, x, y, i, k);
      if At(front + rest, i, k) {
        AtAfter(front, common, first, k);
        assert p + "" == p;
        AtPrefix(p, x, "", first, k);
        Apart(p + x, i, first, k);
        ExposedAfter(p, x, y, i, first, k);
      }
    }
  }

  lemma ExposedAfter(p: string, x: string, y: string, i: nat, first: nat, k: string)
    requires WellChosen(k) && i + |k| <= first && first + |k| == |p| && At(p, first, k)
    ensures Exposed((p + x)[i + |k|..]) == Exposed((p + y)[i + |k|..])
  {
    hide Exposed;
    var c := p[i + |k|..];
    assert (p + x)[i + |k|..] == c + x && (p + y)[i + |k|..] == c + y;
    assert c[|c| - |k|..] == p[first..first + |k|];
    ExposedByCommon(c, x, y, k);
  }

  // -------------------------------------------------------------- the theorem

  ghost predicate NothingHidden(s: string, start: nat, end: nat, k: string) {
    forall j: nat | start <= j < end :: !ExposedAt(s, j, k)
  }

  /** The condition on a step, for a text split at its first occurrence. */
  lemma HidesNothingAt(a: string, v: string, rest: string, k: string)
    requires k != "" && |a| >= |k| && Index(a + (v + rest), k) == |a| - |k|
    requires NoStop(v) && StopsFirst(rest)
    ensures HidesNothing(a + (v + rest), k)
       <==> (StartsRedacted(v) ==> NothingHidden(a + (v + rest), |a|, |a + v|, k)) && HidesNothing(rest, k)
  {
    hide HidesNothing, NothingHidden;
    var s := a + (v + rest);
    assert s[|a|..] == v + rest;
    ValueIs(v, rest);
    MarkWithinValue(v, rest);
    WrittenAround(a, v, rest, k);
    hide Index, At, ExposedAt, StartsRedacted, NoStop, StopsFirst, ValueLength, Left, Written;
    UnfoldHides(s, k, |a|);
  }

  lemma UnfoldHides(s: string, k: string, start: nat)
    requires k != "" && Index(s, k) == start - |k| && |k| <= start <= |s|
    ensures HidesNothing(s, k) <==>
              (StartsRedacted(s[start..]) ==> NothingHidden(s, start, start + ValueLength(s[start..]), k))
              && HidesNothing(Left(s, k, start - |k|), k)
  {
    hide ExposedAt, StartsRedacted, ValueLength;
    IndexFits(s, k);
  }

  /** A pass removes every value after its keyword exactly when no placeholder it
      kept hides an occurrence with an exposed value. */
  lemma {:induction false} CoveredExactly(s: string, k: string)
    requires WellChosen(k)
    ensures Covered(Replace(s, k), k) <==> HidesNothing(s, k)
    decreases |s|
  {
    IndexFits(s, k);
    if Index(s, k) >= 0 {
      var a, v, rest := Split(s, k);
      StepAt(a, v, rest, k);
      HidesNothingAt(a, v, rest, k);
      CoveredExactly(rest, k);
      FirstCharacterKept(rest, k);
      MarkWithinValue(v, rest);
      hide Replace, Index, HidesNothing, Covered, Kept, StartsRedacted, NoStop, StopsFirst;
      StepCovered(a, v, rest, k);
    }
  }

  lemma StepCovered(a: string, v: string, rest: string, k: string)
    requires WellChosen(k) && |a| >= |k| && Index(a + (v + rest), k) == |a| - |k|
    requires NoStop(v) && StopsFirst(rest) && StopsFirst(Replace(rest, k))
    ensures Covered(a + Kept(v, rest) + Replace(rest, k), k)
       <==> (StartsRedacted(v) ==> NothingHidden(a + (v + rest), |a|, |a + v|, k)) && Covered(Replace(rest, k), k)
  {
    assert k != "";
    hide Replace, Index, At, Covered, WellChosen, ExposedAt, CoveredBefore, NothingHidden;
    var w, tail := Kept(v, rest), Replace(rest, k);
    NotExposed(v, rest, tail);
    MarkWithinValue(v, rest);
    hide Exposed, StartsRedacted, NoStop, StopsFirst;
    Assoc(a, w, tail);
    IndexFromPrefix(a, v + rest, w + tail, k);
    CoveredAtFirst(a, w + tail, k);
    CoveredConcat(a + w, tail, k);
    CoveredInTwo(a + w + tail, |a|, |a + w|, k);
    if StartsRedacted(v) {
      Assoc(a, v, rest);
      HiddenTogether(a, v, rest, k);
    } else if v == "" {
      NothingInNothing(a + w + tail, |a|, k);
    } else {
      NothingInPlaceholder(a, tail, k);
    }
  }

  lemma NotExposed(v: string, rest: string, tail: string)
    requires NoStop(v) && StopsFirst(rest) && StopsFirst(tail)
    ensures !Exposed(Kept(v, rest) + tail)
  {
    MarkWithinValue(v, rest);
    if StartsRedacted(v) {
      MarkWithinValue(v, tail);
    }
  }

  lemma NothingInNothing(s: string, n: nat, k: string)
    ensures NothingHidden(s, n, n, k)
  {
  }

  lemma CoveredInTwo(s: string, m: nat, n: nat, k: string)
    requires m <= n
    ensures CoveredBefore(s, n, k) <==> CoveredBefore(s, m, k) && NothingHidden(s, m, n, k)
  {
    hide ExposedAt;
  }

  lemma HiddenTogether(a: string, v: string, rest: string, k: string)
    requires WellChosen(k)
    ensures NothingHidden(a + v + Replace(rest, k), |a|, |a + v|, k)
       <==> NothingHidden(a + v + rest, |a|, |a + v|, k)
  {
    assert k != "";
    hide ExposedAt, WellChosen, Replace;
    forall i: nat | |a| <= i < |a + v|
      ensures ExposedAt(a + v + rest, i, k) == ExposedAt(a + v + Replace(rest, k), i, k)
    {
      HiddenIsKept(a + v, rest, i, k);
    }
  }

  lemma NothingInPlaceholder(a: string, tail: string, k: string)
    requires WellChosen(k)
    ensures NothingHidden(a + Placeholder() + tail, |a|, |a + Placeholder()|, k)
  {
    hide At, Exposed, WellChosen, Placeholder;
    forall i: nat | |a| <= i < |a + Placeholder()| ensures !ExposedAt(a + Placeholder() + tail, i, k) {
      NoneAcrossPlaceholder(a, tail, i, k);
    }
  }

  // ------------------------------------------------------- the keywords in use

  const KEYWORDS := ["node: ", "Node: ", "node=", "NodeName: ", "nodeName: ", "nodename: ", "nodeName="]

  /** A keyword whose last character occurs nowhere else does not overlap itself. */
  lemma LastOnce(k: string)
    requires k != "" && k[|k| - 1] !in k[..|k| - 1]
    ensures NoBorder(k)
  {
    var last := |k| - 1;
    forall d | 0 < d < |k| ensures k[d..] != k[..|k| - d] {
      assert k[d..][last - d] == k[last];
      assert k[..|k| - d][last - d] == k[..last][last - d];
    }
  }

  lemma KeywordsAreWellChosen(k: string)
    requires k in KEYWORDS
    ensures WellChosen(k) && k[0] != ']' && |k| > 1 && NoStop(k[..|k| - 1])
  {
    assert k[1] == 'o' && '[' !in k && ']' !in k && k[|k| - 1] !in k[..|k| - 1];
    LastOnce(k);
    forall j: nat ensures !At(Placeholder(), j, k) {
      if j + |k| <= |Placeholder()| {
        assert Placeholder()[j..j + |k|][1] == Placeholder()[j + 1];
      }
    }
  }

  /** The condition fails for every node name `x` behind a second keyword in a
      value that starts like a placeholder: the pass returns the text as it is. */
  lemma KeptValueHidesANode(k: string, x: string)
    requires WellChosen(k) && |k| > 1 && NoStop(k[..|k| - 1]) && NoStop(x) && Exposed(x)
    ensures var s := k + ("[REDACTED" + k + x);
            Replace(s, k) == s && ExposedAt(s, |k| + 9, k) && s[|k| + 9 + |k|..] == x && !HidesNothing(s, k)
  {
    var rest := "[REDACTED" + k + x;
    ReturnedAsIs(k, x);
    SecondKeyword(k, "[REDACTED", x);
    CoveredExactly(k + rest, k);
    hide HidesNothing, StartsRedacted, WellChosen, Replace, Stops, NoStop, Exposed, At;
  }

  lemma ReturnedAsIs(k: string, x: string)
    requires |k| > 1 && NoStop(k[..|k| - 1]) && NoStop(x)
    ensures Replace(k + ("[REDACTED" + k + x), k) == k + ("[REDACTED" + k + x)
  {
    if Stops(k[|k| - 1]) {
      KeptBeforeStop(k, x);
    } else {
      assert k == k[..|k| - 1] + [k[|k| - 1]];
      MarkedValue(k, x);
      hide Replace, StartsRedacted, NoStop;
      KeptWhole(k, "[REDACTED" + k + x);
    }
  }

  /** A keyword that ends in a stop: the kept value ends within the second one. */
  lemma KeptBeforeStop(k: string, x: string)
    requires |k| > 1 && NoStop(k[..|k| - 1]) && Stops(k[|k| - 1]) && NoStop(x)
    ensures Replace(k + ("[REDACTED" + k + x), k) == k + ("[REDACTED" + k + x)
  {
    var w, c := k[..|k| - 1], [k[|k| - 1]];
    assert k == w + c;
    AloneAfterStop(k, x);
    MarkedWord(w);
    hide Replace, StopsFirst, Stops, StartsRedacted, NoStop;
    KeptThen(k, "[REDACTED" + w, c + x);
    Regroup("[REDACTED", w, c, x);
  }

  lemma MarkedWord(w: string)
    requires NoStop(w)
    ensures NoStop("[REDACTED" + w) && StartsRedacted("[REDACTED" + w)
  {
    MarkedValue(w, "");
    assert "[REDACTED" + w + "" == "[REDACTED" + w;
  }

  lemma AloneAfterStop(k: string, x: string)
    requires |k| > 1 && NoStop(k[..|k| - 1]) && Stops(k[|k| - 1]) && NoStop(x)
    ensures Replace([k[|k| - 1]] + x, k) == [k[|k| - 1]] + x && StopsFirst([k[|k| - 1]] + x)
  {
    assert k[..|k| - 1][0] == k[0];
    NoKeywordWithoutStop(k, x);
    hide Replace;
    CopiesStop(k[|k| - 1], x, k);
  }

  lemma Regroup(mark: string, w: string, c: string, x: string)
    ensures mark + (w + c) + x == (mark + w) + (c + x)
  {
    Assoc(mark, w, c);
    Assoc(mark + w, c, x);
  }

  /** A kept value, and a rest the pass leaves alone. */
  lemma KeptThen(k: string, v: string, rest: string)
    requires k != "" && NoStop(v) && StopsFirst(rest) && StartsRedacted(v) && Replace(rest, k) == rest
    ensures Replace(k + (v + rest), k) == k + (v + rest)
  {
    assert (k + (v + rest))[0..|k|] == k;
    MarkWithinValue(v, rest);
    hide Replace, NoStop, StopsFirst, Stops;
    StepAt(k, v, rest, k);
    Assoc(k, v, rest);
  }

  lemma OccurrenceAt(s: string, i: nat, k: string, d: nat)
    requires At(s, i, k) && d < |k|
    ensures s[i + d] == k[d]
  {
    assert s[i..i + |k|][d] == s[i + d];
  }

  lemma NoKeywordWithoutStop(k: string, x: string)
    requires k != "" && Stops(k[|k| - 1]) && NoStop(x)
    ensures Replace(x, k) == x
  {
    IndexFits(x, k);
    forall i: nat ensures !At(x, i, k) {
      assert i + |k| <= |x| ==> x[i..i + |k|][|k| - 1] == x[i + |k| - 1];
    }
  }

  lemma MarkedValue(k: string, x: string)
    requires NoStop(k) && NoStop(x)
    ensures NoStop("[REDACTED" + k + x) && StartsRedacted("[REDACTED" + k + x)
  {
    NoStopInThree("[REDACTED", k, x);
    assert ("[REDACTED" + k + x)[..9] == "[REDACTED";
  }

  lemma SecondKeyword(k: string, mark: string, x: string)
    ensures var s, i := k + (mark + k + x), |k| + |mark|;
            At(s, i, k) && s[i + |k|..] == x
  {
    var s := k + (mark + k + x);
    assert s == (k + mark) + (k + x);
    assert s == (k + mark + k) + x;
  }

  lemma NoStopInThree(a: string, b: string, c: string)
    requires NoStop(a) && NoStop(b) && NoStop(c)
    ensures NoStop(a + b + c)
  {
  }

  lemma KeptWhole(k: string, v: string)
    requires k != "" && NoStop(v) && StartsRedacted(v)
    ensures Replace(k + v, k) == k + v
  {
    assert (k + v)[0..|k|] == k;
    assert v + "" == v;
    StepAt(k, v, "", k);
    FirstCharacterKept("", k);
    assert k + v + "" == k + v;
  }
}
