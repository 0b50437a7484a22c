/** The seven keyword passes over node names, one after another: a later pass
    never exposes what an earlier one covered, and exactly when a run of all of
    them has nothing left to do. */
module KeywordPasses {
  import opened Common
  import opened KeywordRedaction
  import opened KeywordCoverage

  // ------------------------------------------------------------- the passes

  function Passes(s: string, ks: seq<string>): string
    requires "" !in ks
  {
    if ks == [] then s else Replace(Passes(s, ks[..|ks| - 1]), ks[|ks| - 1])
  }

  method RedactNodeNames(s: string) returns (result: string)
    ensures result == Passes(s, KEYWORDS)
  {
    var ks := KEYWORDS;
    result := s;
    for i := 0 to |ks|
      invariant result == Passes(s, ks[..i])
    {
      assert ks[..i + 1][..i] == ks[..i];
      result := ReplaceAfterKeyword(result, ks[i]);
    }
    assert ks[..|ks|] == ks;
  }

  // ------------------------------------------------ exposed values, counted

  function CountBefore(s: string, n: nat, k: string): nat {
    if n == 0 then 0 else CountBefore(s, n - 1, k) + (if ExposedAt(s, n - 1, k) then 1 else 0)
  }

  /** How often an exposed value follows the keyword. */
  function Count(s: string, k: string): nat { CountBefore(s, |s|, k) }

  /** `t` exposes no more than `s` does, position by position. */
  ghost predicate NoMore(t: string, s: string, from: nat, n: nat, k: string) {
    forall i: nat | from <= i < n :: ExposedAt(t, i, k) ==> ExposedAt(s, i, k)
  }

  lemma {:induction false} CountMore(s: string, m: nat, n: nat, k: string)
    requires m <= n
    ensures CountBefore(s, m, k) <= CountBefore(s, n, k)
  {
    if m < n {
      CountMore(s, m, n - 1, k);
    }
  }

  lemma {:induction false} CountNoMore(t: string, s: string, n: nat, k: string, lost: nat)
    requires NoMore(t, s, 0, n, k)
    ensures CountBefore(t, n, k) <= CountBefore(s, n, k)
    ensures lost < n && ExposedAt(s, lost, k) && !ExposedAt(t, lost, k) ==>
              CountBefore(t, n, k) < CountBefore(s, n, k)
  {
    if n > 0 {
      CountNoMore(t, s, n - 1, k, lost);
    }
  }

  lemma {:induction false} CountSkips(s: string, m: nat, n: nat, k: string)
    requires m <= n && NothingHidden(s, m, n, k)
    ensures CountBefore(s, n, k) == CountBefore(s, m, k)
  {
    if m < n {
      CountSkips(s, m, n - 1, k);
    }
  }

  lemma {:induction false} CountConcat(x: string, t: string, n: nat, k: string)
    ensures CountBefore(x + t, |x| + n, k) == CountBefore(x + t, |x|, k) + CountBefore(t, n, k)
  {
    if n > 0 {
      CountConcat(x, t, n - 1, k);
      AtAfter(x, t, |x| + n - 1, k);
    }
  }

  lemma {:induction false} CountZero(s: string, n: nat, k: string)
    ensures CountBefore(s, n, k) == 0 <==> CoveredBefore(s, n, k)
  {
    if n > 0 {
      CountZero(s, n - 1, k);
    }
  }

  lemma CoveredIsZero(s: string, k: string)
    requires k != ""
    ensures Covered(s, k) <==> Count(s, k) == 0
  {
    CountZero(s, |s|, k);
  }

  // ------------------------------------------- one keyword, another one's pass

  /** Neither keyword ends inside the other. */
  ghost predicate Compatible(k: string, j: string) {
    && WellChosen(k) && WellChosen(j)
    && k[|k| - 1] !in j[..|j| - 1] && j[|j| - 1] !in k[..|k| - 1]
  }

  /** A character the keyword has at most at its end rules out an occurrence
      around it. */
  lemma NotAround(q: string, i: nat, k: string, pos: nat)
    requires i <= pos < i + |k| - 1 && pos < |q| && q[pos] !in k[..|k| - 1]
    ensures !At(q, i, k)
  {
    assert i + |k| <= |q| ==> q[i..i + |k|][pos - i] == q[pos];
    assert k[..|k| - 1][pos - i] == k[pos - i];
  }

  /** Where `p` ends with `j`, an occurrence of `k` that starts in it ends before
      that `j` or together with it. */
  lemma EndsOutside(p: string, y: string, i: nat, k: string, j: string)
    requires Compatible(k, j) && |j| <= |p| && At(p, |p| - |j|, j) && i < |p|
    ensures At(p + y, i, k) ==> i + |k| == |p| || i + |k| + |j| <= |p|
  {
    OccurrenceAt(p, |p| - |j|, j, |j| - 1);
    if i + |k| > |p| {
      NotAround(p + y, i, k, |p| - 1);
    } else if |p| - |j| < i + |k| < |p| {
      NotEndingInside(p, y, i, k, j);
    }
  }

  lemma NotEndingInside(p: string, y: string, i: nat, k: string, j: string)
    requires Compatible(k, j) && |j| <= |p| && At(p, |p| - |j|, j) && |p| - |j| < i + |k| < |p|
    ensures !At(p + y, i, k)
  {
    var d := i + |k| - 1 - (|p| - |j|);
    OccurrenceAt(p, |p| - |j|, j, d);
    assert j[..|j| - 1][d] == j[d];
    assert (p + y)[i..i + |k|][|k| - 1] == p[i + |k| - 1];
  }

  /** What follows `p`, which ends with `j`, may change: nothing new is exposed in
      `p` as long as what follows now is not. */
  lemma StillCovered(p: string, x: string, y: string, i: nat, k: string, j: string)
    requires Compatible(k, j) && |j| <= |p| && At(p, |p| - |j|, j) && i < |p| && !Exposed(y)
    ensures ExposedAt(p + y, i, k) ==> ExposedAt(p + x, i, k)
  {
    if ExposedAt(p + y, i, k) {
      EndsOutside(p, y, i, k, j);
      hide Exposed, WellChosen;
      var c := p[i + |k|..];
      assert (p + x)[i + |k|..] == c + x && (p + y)[i + |k|..] == c + y;
      assert c == "" ==> c + y == y;
      if i + |k| < |p| {
        AtPrefix(p, y, x, i, k);
        assert c[|c| - |j|..] == p[|p| - |j|..|p| - |j| + |j|];
        ExposedByCommon(c, x, y, j);
      }
    }
  }

  /** A text with the keyword, and what a pass makes of it, are the same through
      the first occurrence; after it nothing is exposed any more. */
  lemma FirstChange(s: string, j: string) returns (a: string, x: string, y: string)
    requires j != "" && Index(s, j) >= 0
    ensures |j| <= |a| && At(a, |a| - |j|, j) && s == a + x && Replace(s, j) == a + y && !Exposed(y)
  {
    var v, more;
    a, v, more := Split(s, j);
    FirstCharacterKept(more, j);
    NotExposed(v, more, Replace(more, j));
    hide Replace, Exposed, StartsRedacted, NoStop, StopsFirst, Kept;
    StepAt(a, v, more, j);
    EndsWith(a, v + more, j);
    x, y := v + more, Kept(v, more) + Replace(more, j);
    Assoc(a, Kept(v, more), Replace(more, j));
  }

  /** The same where a kept value stands before the rest of the text. */
  lemma StillCoveredInFront(front: string, rest: string, i: nat, k: string, j: string)
    requires Compatible(k, j) && i < |front|
    ensures ExposedAt(front + Replace(rest, j), i, k) ==> ExposedAt(front + rest, i, k)
  {
    if Index(rest, j) < 0 {
      IndexFits(rest, j);
    } else {
      var a, x, y := FirstChange(rest, j);
      AtAfter(front, a, |front| + |a| - |j|, j);
      assert j != "";
      hide Replace, Index, At, Exposed, ExposedAt, Compatible;
      Assoc(front, a, x);
      Assoc(front, a, y);
      StillCovered(front + a, x, y, i, k, j);
    }
  }

  /** The step at a first occurrence that keeps the value. */
  lemma KeptCounts(a: string, v: string, rest: string, k: string, j: string)
    requires Compatible(k, j)
    ensures CountBefore(a + v + Replace(rest, j), |a + v|, k) <= CountBefore(a + v + rest, |a + v|, k)
  {
    var front := a + v;
    assert NoMore(front + Replace(rest, j), front + rest, 0, |front|, k) by {
      forall i: nat | i < |front|
        ensures ExposedAt(front + Replace(rest, j), i, k) ==> ExposedAt(front + rest, i, k)
      {
        StillCoveredInFront(front, rest, i, k, j);
      }
    }
    hide Compatible, Replace, ExposedAt;
    CountNoMore(front + Replace(rest, j), front + rest, |front|, k, 0);
  }

  /** The step that replaces the value. */
  lemma ReplacedCounts(a: string, v: string, rest: string, tail: string, k: string, j: string)
    requires Compatible(k, j) && |j| <= |a| && At(a, |a| - |j|, j)
    requires Exposed(v + rest) && StopsFirst(tail)
    ensures CountBefore(a + Placeholder() + tail, |a + Placeholder()|, k) <= CountBefore(a + (v + rest), |a + v|, k)
    ensures k == j ==>
      CountBefore(a + Placeholder() + tail, |a + Placeholder()|, k) < CountBefore(a + (v + rest), |a + v|, k)
  {
    var s, t, y := a + (v + rest), a + Placeholder() + tail, Placeholder() + tail;
    assert !Exposed(y);
    Assoc(a, Placeholder(), tail);
    forall i: nat | i < |a| ensures ExposedAt(t, i, k) ==> ExposedAt(s, i, k) {
      StillCovered(a, v + rest, y, i, k, j);
    }
    var lost := |a| - |j|;
    AtPrefix(a, v + rest, "", lost, j);
    AtPrefix(a, y, "", lost, j);
    assert a + "" == a && s[lost + |j|..] == v + rest && t[lost + |j|..] == y;
    assert ExposedAt(s, lost, j) && !ExposedAt(t, lost, j);
    NothingInPlaceholder(a, tail, k);
    hide ExposedAt, Exposed, Placeholder, Compatible, At;
    CountNoMore(t, s, |a|, k, lost);
    CountSkips(t, |a|, |a + Placeholder()|, k);
    CountMore(s, |a|, |a + v|, k);
  }

  /** No pass exposes a value after any keyword, and one that changes the text
      leaves fewer exposed after its own. */
  lemma {:induction false} PassCounts(s: string, k: string, j: string)
    requires Compatible(k, j)
    ensures Count(Replace(s, j), k) <= Count(s, k)
    ensures k == j && Replace(s, j) != s ==> Count(Replace(s, j), k) < Count(s, k)
    decreases |s|
  {
    IndexFits(s, j);
    if Index(s, j) >= 0 {
      var a, v, rest := Split(s, j);
      var tail := Replace(rest, j);
      StepAt(a, v, rest, j);
      FirstCharacterKept(rest, j);
      PassCounts(rest, k, j);
      StepCounts(a, v, rest, k, j);
    }
  }

  lemma StepCounts(a: string, v: string, rest: string, k: string, j: string)
    requires Compatible(k, j) && |a| >= |j| && Index(a + (v + rest), j) == |a| - |j|
    requires NoStop(v) && StopsFirst(rest) && StopsFirst(Replace(rest, j))
    requires Count(Replace(rest, j), k) <= Count(rest, k)
    requires k == j && Replace(rest, j) != rest ==> Count(Replace(rest, j), k) < Count(rest, k)
    ensures var out := a + Kept(v, rest) + Replace(rest, j);
      && Count(out, k) <= Count(a + (v + rest), k)
      && (k == j && out != a + (v + rest) ==> Count(out, k) < Count(a + (v + rest), k))
  {
    var w, tail := Kept(v, rest), Replace(rest, j);
    EndsWith(a, v + rest, j);
    ReplacedIsExposed(v, rest);
    CountParts(a, v, rest, k);
    hide Replace, Kept, At, Index, Exposed, NoStop, StopsFirst, Placeholder, Compatible, Count, CountBefore;
    if w == v {
      KeptStep(a, v, rest, k, j);
    } else {
      ReplacedStep(a, v, rest, k, j);
    }
  }

  lemma KeptStep(a: string, v: string, rest: string, k: string, j: string)
    requires Compatible(k, j)
    ensures Count(a + v + Replace(rest, j), k) - Count(Replace(rest, j), k)
         <= Count(a + (v + rest), k) - Count(rest, k)
    ensures Replace(rest, j) == rest ==> a + v + Replace(rest, j) == a + (v + rest)
  {
    assert j != "";
    hide Replace, Compatible, CountBefore;
    Assoc(a, v, rest);
    KeptCounts(a, v, rest, k, j);
    CountParts(a, v, rest, k);
    CountParts(a, v, Replace(rest, j), k);
    Assoc(a, v, Replace(rest, j));
  }

  lemma ReplacedStep(a: string, v: string, rest: string, k: string, j: string)
    requires Compatible(k, j) && |j| <= |a| && At(a, |a| - |j|, j)
    requires Exposed(v + rest) && StopsFirst(Replace(rest, j))
    ensures var before, after := Count(a + (v + rest), k) - Count(rest, k),
                                 Count(a + Placeholder() + Replace(rest, j), k) - Count(Replace(rest, j), k);
            after <= before && (k == j ==> after < before)
  {
    assert j != "";
    hide Replace, Compatible, CountBefore, Placeholder, Exposed, StopsFirst, At;
    ReplacedCounts(a, v, rest, Replace(rest, j), k, j);
    CountParts(a, v, rest, k);
    CountParts(a, Placeholder(), Replace(rest, j), k);
    Assoc(a, Placeholder(), Replace(rest, j));
  }

  lemma CountParts(a: string, v: string, rest: string, k: string)
    ensures Count(a + (v + rest), k) == CountBefore(a + (v + rest), |a + v|, k) + Count(rest, k)
  {
    hide CountBefore;
    Assoc(a, v, rest);
    CountConcat(a + v, rest, |rest|, k);
  }

  lemma EndsWith(a: string, y: string, k: string)
    requires k != "" && |a| >= |k| && Index(a + y, k) == |a| - |k|
    ensures At(a, |a| - |k|, k)
  {
    IndexFits(a + y, k);
    AtPrefix(a, y, "", |a| - |k|, k);
    assert a + "" == a;
  }

  lemma ReplacedIsExposed(v: string, rest: string)
    requires NoStop(v)
    ensures Kept(v, rest) != v ==> Exposed(v + rest) && Kept(v, rest) == Placeholder()
  {
  }

  /** What is covered stays covered under every other pass. */
  lemma LaterPassExposesNothing(s: string, k: string, j: string)
    requires Compatible(k, j) && Covered(s, k)
    ensures Covered(Replace(s, j), k)
  {
    PassCounts(s, k, j);
    CoveredIsZero(s, k);
    CoveredIsZero(Replace(s, j), k);
  }

  // ------------------------------------------------------------ all passes

  ghost predicate CompatibleAll(ks: seq<string>) {
    forall k, j | k in ks && j in ks :: Compatible(k, j)
  }

  lemma KeywordsAreCompatible()
    ensures "" !in KEYWORDS && CompatibleAll(KEYWORDS)
  {
    forall k, j | k in KEYWORDS && j in KEYWORDS ensures Compatible(k, j) {
      KeywordsAreWellChosen(k);
      KeywordsAreWellChosen(j);
      LastIsForeign(k, j);
    }
  }

  lemma LastIsForeign(k: string, j: string)
    requires k in KEYWORDS && j in KEYWORDS
    ensures k[|k| - 1] !in j[..|j| - 1]
  {
    assert k[|k| - 1] == ' ' || k[|k| - 1] == '=';
    assert forall w | w in KEYWORDS :: ' ' !in w[..|w| - 1] && '=' !in w[..|w| - 1];
  }

  lemma CompatiblePrefix(ks: seq<string>, n: nat)
    requires n <= |ks| && "" !in ks && CompatibleAll(ks)
    ensures "" !in ks[..n] && CompatibleAll(ks[..n])
  {
    hide Compatible;
    assert forall k | k in ks[..n] :: k in ks;
  }

  /** What each pass meets, when none of them keeps a value that hides another. */
  ghost predicate EachHidesNothing(s: string, ks: seq<string>)
    requires "" !in ks
  {
    ks == [] || (
      var n := |ks| - 1;
      EachHidesNothing(s, ks[..n]) && HidesNothing(Passes(s, ks[..n]), ks[n]))
  }

  /** Then a run leaves no value after any keyword. */
  lemma {:induction false} RunCovers(s: string, ks: seq<string>, k: string)
    requires "" !in ks && CompatibleAll(ks) && EachHidesNothing(s, ks) && k in ks
    ensures Covered(Passes(s, ks), k)
  {
    var n := |ks| - 1;
    var before := Passes(s, ks[..n]);
    assert Compatible(k, ks[n]);
    hide Compatible, HidesNothing, Covered, Replace;
    if k == ks[n] {
      CoveredExactlyOwn(before, k);
    } else {
      CompatiblePrefix(ks, n);
      assert k in ks[..n];
      RunCovers(s, ks[..n], k);
      LaterPassExposesNothing(before, k, ks[n]);
    }
  }

  lemma CoveredExactlyOwn(s: string, k: string)
    requires Compatible(k, k) && HidesNothing(s, k)
    ensures Covered(Replace(s, k), k)
  {
    CoveredExactly(s, k);
  }

  // --------------------------------------------------------- a second run

  /** The pass meets only empty values and placeholders. */
  ghost predicate NothingToReplace(s: string, k: string)
    requires k != ""
    decreases |s|
  {
    IndexFits(s, k);
    var idx := Index(s, k);
    idx < 0 || (!Exposed(s[idx + |k|..]) && NothingToReplace(Left(s, k, idx), k))
  }

  lemma NothingToReplaceAt(a: string, v: string, rest: string, k: string)
    requires k != "" && |a| >= |k| && Index(a + (v + rest), k) == |a| - |k| && NoStop(v) && StopsFirst(rest)
    ensures NothingToReplace(a + (v + rest), k) <==> !Exposed(v + rest) && NothingToReplace(rest, k)
  {
    hide Written, Left, Exposed, At, Index, NothingToReplace;
    var s := a + (v + rest);
    assert s[|a|..] == v + rest;
    WrittenAround(a, v, rest, k);
    UnfoldNothing(s, k, |a|);
  }

  lemma UnfoldNothing(s: string, k: string, start: nat)
    requires k != "" && Index(s, k) == start - |k| && |k| <= start <= |s|
    ensures NothingToReplace(s, k) <==>
              !Exposed(s[start..]) && NothingToReplace(Left(s, k, start - |k|), k)
  {
    hide Exposed, Left;
    IndexFits(s, k);
  }

  /** A pass leaves a text as it is exactly when it meets nothing to replace. */
  lemma {:induction false} PassUnchangedExactly(s: string, k: string)
    requires Compatible(k, k)
    ensures Replace(s, k) == s <==> NothingToReplace(s, k)
    decreases |s|
  {
    IndexFits(s, k);
    if Index(s, k) >= 0 {
      var a, v, rest := Split(s, k);
      StepAt(a, v, rest, k);
      FirstCharacterKept(rest, k);
      PassUnchangedExactly(rest, k);
      NothingToReplaceAt(a, v, rest, k);
      EndsWith(a, v + rest, k);
      assert k != "";
      hide Replace, NothingToReplace, Index, At, Count, Compatible, Kept, Exposed, NoStop, StopsFirst;
      StepUnchanged(a, v, rest, k);
    }
  }

  lemma StepUnchanged(a: string, v: string, rest: string, k: string)
    requires Compatible(k, k) && |k| <= |a| && At(a, |a| - |k|, k)
    requires NoStop(v) && StopsFirst(rest) && StopsFirst(Replace(rest, k))
    ensures a + Kept(v, rest) + Replace(rest, k) == a + (v + rest)
       <==> !Exposed(v + rest) && Replace(rest, k) == rest
  {
    PassCounts(rest, k, k);
    ReplacedIsExposed(v, rest);
    MarkWithinValue(v, rest);
    assert Exposed(v + rest) ==> Kept(v, rest) == Placeholder();
    hide Kept, Placeholder, Replace, Compatible, Count, At, NoStop, StopsFirst, StartsRedacted;
    if Exposed(v + rest) {
      hide Exposed;
      ReplacedStep(a, v, rest, k, k);
    } else {
      KeptSame(a, v, rest, Replace(rest, k));
    }
  }

  lemma KeptSame(a: string, v: string, rest: string, tail: string)
    ensures a + v + tail == a + (v + rest) <==> tail == rest
  {
    Assoc(a, v, rest);
    assert (a + v + tail)[|a + v|..] == tail && (a + v + rest)[|a + v|..] == rest;
  }

  /** No keyword gains an exposed value in later passes. */
  lemma {:induction false} PassesCount(s: string, ks: seq<string>, m: nat, k: string)
    requires m <= |ks| && "" !in ks && forall j | j in ks :: Compatible(k, j)
    ensures Count(Passes(s, ks), k) <= Count(Passes(s, ks[..m]), k)
  {
    if m == |ks| {
      assert ks[..m] == ks;
    } else {
      var n := |ks| - 1;
      assert ks[..n][..m] == ks[..m] && Compatible(k, ks[n]);
      hide Compatible, Replace, Count;
      assert forall j | j in ks[..n] :: j in ks;
      PassesCount(s, ks[..n], m, k);
      PassCounts(Passes(s, ks[..n]), k, ks[n]);
    }
  }

  /** When a run changes nothing, none of its passes does. */
  lemma {:induction false} UnchangedThrough(s: string, ks: seq<string>, m: nat)
    requires m <= |ks| && "" !in ks && CompatibleAll(ks) && Passes(s, ks) == s
    ensures Passes(s, ks[..m]) == s
  {
    if m > 0 {
      UnchangedThrough(s, ks, m - 1);
      var k := ks[m - 1];
      assert ks[..m][..m - 1] == ks[..m - 1] && Compatible(k, k);
      assert Passes(s, ks[..m]) == Replace(s, k);
      assert forall j | j in ks :: Compatible(k, j);
      hide Compatible, Replace, Count, Passes;
      PassCounts(s, k, k);
      PassesCount(s, ks, m, k);
    }
  }

  lemma {:induction false} Untouched(s: string, ks: seq<string>)
    requires "" !in ks && forall k | k in ks :: Replace(s, k) == s
    ensures Passes(s, ks) == s
  {
    if ks != [] {
      Untouched(s, ks[..|ks| - 1]);
    }
  }

  /** A run leaves a text as it is exactly when no pass alone has anything to
      replace in it: passes never undo each other. */
  lemma RunUnchangedExactly(s: string, ks: seq<string>)
    requires "" !in ks && CompatibleAll(ks)
    ensures Passes(s, ks) == s <==> forall k | k in ks :: NothingToReplace(s, k)
  {
    forall k | k in ks ensures Replace(s, k) == s <==> NothingToReplace(s, k) {
      assert Compatible(k, k);
      PassUnchangedExactly(s, k);
    }
    hide Compatible, Replace, NothingToReplace;
    if Passes(s, ks) == s {
      forall k | k in ks ensures Replace(s, k) == s {
        var i :| 0 <= i < |ks| && ks[i] == k;
        UnchangedThrough(s, ks, i);
        UnchangedThrough(s, ks, i + 1);
        assert ks[..i + 1][..i] == ks[..i];
      }
    }
    if forall k | k in ks :: NothingToReplace(s, k) {
      Untouched(s, ks);
    }
  }

  /** A covered text has nothing to replace, so after a run in which no pass hides
      anything a second run changes nothing. */
  lemma {:induction false} CoveredHasNothing(s: string, k: string)
    requires k != "" && Covered(s, k)
    ensures NothingToReplace(s, k)
    decreases |s|
  {
    IndexFits(s, k);
    if Index(s, k) >= 0 {
      assert !ExposedAt(s, Index(s, k), k);
      var a, v, rest := Split(s, k);
      NothingToReplaceAt(a, v, rest, k);
      assert s[|a|..] == v + rest;
      Assoc(a, v, rest);
      CoveredConcat(a + v, rest, k);
      CoveredHasNothing(rest, k);
    }
  }

  lemma SecondRunIdle(s: string)
    requires EachHidesNothing(s, KEYWORDS)
    ensures Passes(Passes(s, KEYWORDS), KEYWORDS) == Passes(s, KEYWORDS)
    ensures forall k | k in KEYWORDS :: Covered(Passes(s, KEYWORDS), k)
  {
    KeywordsAreCompatible();
    var once := Passes(s, KEYWORDS);
    forall k | k in KEYWORDS ensures Covered(once, k) && k != "" && NothingToReplace(once, k) {
      RunCovers(s, KEYWORDS, k);
      CoveredHasNothing(once, k);
    }
    hide Passes, NothingToReplace, Covered, Compatible;
    RunUnchangedExactly(once, KEYWORDS);
  }

  // ------------------------------------------- a second run that finds more

  /** A text in front that holds no start of the keyword is copied. */
  lemma {:induction false} CopiedPrefix(pre: string, t: string, k: string)
    requires k != "" && forall i: nat | i < |pre| :: !At(pre + t, i, k)
    ensures Replace(pre + t, k) == pre + Replace(t, k)
  {
    if pre == "" {
      assert pre + t == t && pre + Replace(t, k) == Replace(t, k);
    } else {
      var c, more := pre[0], pre[1..];
      assert pre + t == [c] + (more + t) && pre == [c] + more;
      forall i: nat | i < |more| ensures !At(more + t, i, k) {
        AtNext(pre + t, i, k);
        assert (pre + t)[1..] == more + t;
      }
      CopiedPrefix(more, t, k);
      CopiesOne(c, more + t, k);
      Assoc([c], more, Replace(t, k));
    }
  }

  lemma CopiedWithout(pre: string, t: string, k: string)
    requires k != "" && k[0] !in pre
    ensures Replace(pre + t, k) == pre + Replace(t, k)
  {
    forall i: nat | i < |pre| ensures !At(pre + t, i, k) {
      assert i + |k| <= |pre + t| ==> (pre + t)[i..i + |k|][0] == pre[i];
    }
    CopiedPrefix(pre, t, k);
  }

  /** A keyword with a character the text does not have. */
  lemma NoSuchCharacter(s: string, k: string, d: nat)
    requires d < |k| && k[d] !in s
    ensures Replace(s, k) == s
  {
    IndexFits(s, k);
    forall i: nat ensures !At(s, i, k) {
      assert i + |k| <= |s| ==> s[i..i + |k|][d] == s[i + d];
    }
  }

  /** Two keywords with a node name behind the second, which the first pass does
      not see: it keeps the value the second keyword ends in. */
  function Veiled(x: string): string { "node=" + ("node: " + ("[REDACTED" + "node: " + x)) }

  function Unveiled(x: string): string { "node=" + Placeholder() + (" [REDACTED" + "node: " + x) }

  predicate PlainName(x: string) {
    NoStop(x) && Exposed(x) && 'N' !in x && 'm' !in x && '=' !in x
  }

  lemma FirstPassVeiled(x: string)
    requires PlainName(x)
    ensures Replace(Veiled(x), "node: ") == Veiled(x)
  {
    var k, t := "node: ", "node: " + ("[REDACTED" + "node: " + x);
    KeywordsAreWellChosen(k);
    ReturnedAsIs(k, x);
    forall i: nat | i < 5 ensures !At("node=" + t, i, k) {
      assert ("node=" + t)[4] == '=' && '=' !in k[..5];
      NotAround("node=" + t, i, k, 4);
    }
    hide Replace, At;
    CopiedPrefix("node=", t, k);
  }

  lemma ThirdPassUnveils(x: string)
    requires PlainName(x)
    ensures Replace(Veiled(x), "node=") == Unveiled(x)
  {
    var k, v, rest := "node=", "node:", " [REDACTED" + "node: " + x;
    assert Veiled(x) == k + (v + rest);
    assert (k + (v + rest))[0..5] == k;
    assert NoStop(v) && StopsFirst(rest) && !StartsRedacted(v);
    MarkWithinValue(v, rest);
    NoSuchCharacter(rest, k, 4);
    hide Replace, NoStop, StopsFirst, StartsRedacted;
    StepAt(k, v, rest, k);
  }

  lemma UnveiledIsExposed(x: string)
    requires PlainName(x)
    ensures Replace(Unveiled(x), "node: ") != Unveiled(x)
  {
    var k, mid := "node: ", Placeholder() + " [REDACTED";
    assert Unveiled(x) == "node=" + (mid + ("node: " + x));
    var t := mid + ("node: " + x);
    forall i: nat | i < 5 ensures !At("node=" + t, i, k) {
      assert ("node=" + t)[4] == '=' && '=' !in k[..5];
      NotAround("node=" + t, i, k, 4);
    }
    assert 'n' !in mid;
    assert x + "" == x && (k + x)[0..6] == k;
    MarkWithinValue(x, "");
    StepAt(k, x, "", k);
    assert Replace("", k) == "";
    assert k + Placeholder() + "" == k + Placeholder();
    assert x != Placeholder() by {
      assert Stops(Placeholder()[14]);
    }
    hide Replace, At, Placeholder;
    CopiedWithout(mid, "node: " + x, k);
    CopiedPrefix("node=", t, k);
    DifferBehind(k, Placeholder(), x);
    DifferBehind(mid, k + Placeholder(), k + x);
    DifferBehind("node=", mid + (k + Placeholder()), t);
  }

  lemma DifferBehind(pre: string, a: string, b: string)
    ensures pre + a == pre + b <==> a == b
  {
    assert (pre + a)[|pre|..] == a && (pre + b)[|pre|..] == b;
  }

  lemma OnePass(s: string, ks: seq<string>, i: nat)
    requires i < |ks| && "" !in ks
    ensures Passes(s, ks[..i + 1]) == Replace(Passes(s, ks[..i]), ks[i])
  {
    assert ks[..i + 1][..i] == ks[..i];
  }

  /** So the passes in sequence are not idempotent on such texts. */
  lemma SecondRunFindsMore(x: string)
    requires PlainName(x)
    ensures Passes(Veiled(x), KEYWORDS) == Unveiled(x)
    ensures Passes(Unveiled(x), KEYWORDS) != Unveiled(x)
  {
    var ks, s, t := KEYWORDS, Veiled(x), Unveiled(x);
    assert 'N' !in s && 'm' !in t;
    FirstPassVeiled(x);
    ThirdPassUnveils(x);
    UnveiledIsExposed(x);
    NoSuchCharacter(s, "Node: ", 0);
    forall i: nat | 3 <= i < 7 ensures Replace(t, ks[i]) == t {
      assert ks[i][6] == 'm';
      NoSuchCharacter(t, ks[i], 6);
    }
    KeywordsAreCompatible();
    PassUnchangedOnFirst(t);
    hide Replace, Veiled, Unveiled, Passes, NothingToReplace, Compatible;
    RunUnchangedExactly(t, ks);
    SevenPasses(s, t);
  }

  lemma PassUnchangedOnFirst(t: string)
    requires Replace(t, "node: ") != t
    ensures !NothingToReplace(t, "node: ")
  {
    KeywordsAreCompatible();
    assert "node: " in KEYWORDS;
    assert Compatible("node: ", "node: ");
    hide Replace, Compatible, NothingToReplace;
    PassUnchangedExactly(t, "node: ");
  }

  lemma SevenPasses(s: string, t: string)
    requires Replace(s, "node: ") == s && Replace(s, "Node: ") == s && Replace(s, "node=") == t
    requires forall i: nat | 3 <= i < 7 :: Replace(t, KEYWORDS[i]) == t
    ensures Passes(s, KEYWORDS) == t
  {
    var ks := KEYWORDS;
    assert Passes(s, ks[..0]) == s;
    hide Replace, Passes;
    for i := 0 to 7
      invariant Passes(s, ks[..i]) == if i < 3 then s else t
    {
      OnePass(s, ks, i);
      assert i < 3 ==> ks[i] == ["node: ", "Node: ", "node="][i];
    }
    assert ks[..7] == ks;
  }
}
