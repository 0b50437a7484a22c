/** Redacting the value after a keyword. A pass has nothing to do a second time,
    and it leaves no value after the keyword exactly when no placeholder it kept
    hides one. */
module KeywordRedaction {
  import opened Common

  function Placeholder(): string { "[REDACTED-NODE]" }

  predicate Stops(c: char) {
    c == ' ' || c == '\n' || c == '\r' || c == '\t' || c == ',' || c == '}' || c == ']'
  }

  predicate At(s: string, i: nat, k: string) {
    i + |k| <= |s| && s[i..i + |k|] == k
  }

  /** The first occurrence, or -1. */
  function Index(s: string, k: string): int {
    if At(s, 0, k) then 0
    else if s == "" then -1
    else
      var rest := Index(s[1..], k);
      if rest < 0 then -1 else rest + 1
  }

  /** The length of the value at the start of `s`. */
  function ValueLength(s: string): (n: nat)
    ensures n <= |s|
  {
    if s == "" || Stops(s[0]) then 0 else 1 + ValueLength(s[1..])
  }

  predicate StartsRedacted(s: string) {
    "[REDACTED" <= s
  }

  /** What one step of the scan writes, and what it leaves to scan; `idx` is the
      keyword's first occurrence. */
  function Written(s: string, k: string, idx: nat): string
    requires idx + |k| <= |s|
  {
    var start := idx + |k|;
    var n := ValueLength(s[start..]);
    if n == 0 then s[..start]
    else if StartsRedacted(s[start..]) then s[..start + n]
    else s[..start] + Placeholder()
  }

  function Left(s: string, k: string, idx: nat): string
    requires idx + |k| <= |s|
  {
    s[idx + |k| + ValueLength(s[idx + |k|..])..]
  }

  lemma AtNext(s: string, j: nat, k: string)
    requires s != ""
    ensures At(s, j + 1, k) == At(s[1..], j, k)
  {
    if j + 1 + |k| <= |s| {
      var rest := s[1..];
      assert s[j + 1..j + 1 + |k|] == rest[j..j + |k|];
    }
  }

  lemma {:induction false} IndexFits(s: string, k: string)
    ensures Index(s, k) >= 0 ==> At(s, Index(s, k), k)
    ensures forall j: nat | Index(s, k) < 0 || j < Index(s, k) :: !At(s, j, k)
  {
    if !At(s, 0, k) && s != "" {
      IndexFits(s[1..], k);
      forall j: nat ensures j > 0 ==> At(s, j, k) == At(s[1..], j - 1, k) {
        if j > 0 {
          AtNext(s, j - 1, k);
        }
      }
    }
  }

  function Replace(s: string, k: string): string
    requires k != ""
    decreases |s|
  {
    IndexFits(s, k);
    var idx := Index(s, k);
    if idx < 0 then s else Written(s, k, idx) + Replace(Left(s, k, idx), k)
  }

  /** One step of the scan. */
  lemma Unfold(s: string, k: string, idx: nat)
    requires k != "" && Index(s, k) == idx
    ensures idx + |k| <= |s|
    ensures Replace(s, k) == Written(s, k, idx) + Replace(Left(s, k, idx), k)
  {
    IndexFits(s, k);
  }

  method ReplaceAfterKeyword(s: string, k: string) returns (result: string)
    requires k != ""
    ensures result == Replace(s, k)
  {
    hide At, ValueLength, StartsRedacted, Placeholder;
    result := "";
    var remaining := s;
    while true
      invariant result + Replace(remaining, k) == Replace(s, k)
      decreases |remaining|
    {
      var idx := Index(remaining, k);
      if idx < 0 {
        return result + remaining;
      }
      Unfold(remaining, k, idx);
      Assoc(result, Written(remaining, k, idx), Replace(Left(remaining, k, idx), k));
      hide Replace, Index;
      var written, rest := ScanStep(remaining, k, idx);
      result := result + written;
      remaining := rest;
    }
  }

  /** Skips the value and writes what stays of it. */
  method ScanStep(s: string, k: string, idx: nat) returns (written: string, rest: string)
    requires k != "" && idx + |k| <= |s|
    ensures written == Written(s, k, idx) && rest == Left(s, k, idx) && |rest| < |s|
  {
    hide ValueLength, StartsRedacted, Placeholder;
    var start := idx + |k|;
    var end := ScanValue(s, start);
    written := s[..start];
    rest := s[end..];
    if end == start {
      return;
    }
    if StartsRedacted(s[start..]) {
      assert s[..start] + s[start..end] == s[..end];
      written := written + s[start..end];
    } else {
      written := written + Placeholder();
    }
  }

  method ScanValue(s: string, start: nat) returns (end: nat)
    requires start <= |s|
    ensures end == start + ValueLength(s[start..])
  {
    end := start;
    while end < |s| && !Stops(s[end])
      invariant start <= end <= |s|
      invariant end + ValueLength(s[end..]) == start + ValueLength(s[start..])
    {
      assert s[end..][1..] == s[end + 1..];
      end := end + 1;
    }
  }

  // ------------------------------------------------------------- idempotence

  predicate NoStop(v: string) {
    forall i | 0 <= i < |v| :: !Stops(v[i])
  }

  predicate StopsFirst(s: string) {
    s == "" || Stops(s[0])
  }

  /** The value ends at a stop or at the end of the text, and holds no stop. */
  lemma {:induction false} ValueEnds(s: string)
    ensures var n := ValueLength(s);
      && (forall i | 0 <= i < n :: !Stops(s[i]))
      && (n < |s| ==> Stops(s[n]))
  {
    if s != "" && !Stops(s[0]) {
      ValueEnds(s[1..]);
      forall i | 0 <= i < ValueLength(s) ensures !Stops(s[i]) {
        if i > 0 { assert s[i] == s[1..][i - 1]; }
      }
    }
  }

  /** A value followed by a stop, or by nothing, is found at its length. */
  lemma {:induction false} ValueIs(v: string, rest: string)
    requires NoStop(v) && StopsFirst(rest)
    ensures ValueLength(v + rest) == |v|
  {
    if v == "" {
      assert v + rest == rest;
    } else {
      assert (v + rest)[1..] == v[1..] + rest;
      ValueIs(v[1..], rest);
    }
  }

  /** After a keyword everything up to white space, a comma or a closing bracket
      gives way to the placeholder, unless it already is one. */
  lemma ValueIsReplaced(k: string, v: string, rest: string)
    requires k != "" && v != "" && forall i | 0 <= i < |v| :: v[i] !in " \n\r\t,}]"
    requires rest == "" || rest[0] in " \n\r\t,}]"
    ensures Replace(k + v + rest, k)
         == k + (if "[REDACTED" <= v + rest then v else "[REDACTED-NODE]") + Replace(rest, k)
  {
    var s := k + v + rest;
    ValueIs(v, rest);
    assert s[..|k|] == k && s[|k|..] == v + rest && s[|k| + |v|..] == rest && s[..|k| + |v|] == k + v;
    assert At(s, 0, k) by {
      assert s[0..|k|] == k;
    }
    Unfold(s, k, 0);
    hide Replace, Index, ValueLength;
  }

  lemma AtPrefix(a: string, b: string, c: string, j: nat, k: string)
    requires j + |k| <= |a|
    ensures At(a + b, j, k) == At(a + c, j, k)
  {
    assert (a + b)[j..j + |k|] == a[j..j + |k|] == (a + c)[j..j + |k|];
  }

  /** The first occurrence is determined by the text up to its end. */
  lemma IndexFromPrefix(a: string, b: string, c: string, k: string)
    requires k != "" && |a| >= |k| && Index(a + b, k) == |a| - |k|
    ensures Index(a + c, k) == |a| - |k|
  {
    hide At, Index;
    var idx := |a| - |k|;
    IndexFits(a + b, k);
    forall j: nat | j <= idx ensures At(a + c, j, k) == At(a + b, j, k) {
      AtPrefix(a, b, c, j, k);
    }
    IndexIs(a + c, k, idx);
  }

  lemma IndexIs(s: string, k: string, idx: nat)
    requires At(s, idx, k) && forall j: nat | j < idx :: !At(s, j, k)
    ensures Index(s, k) == idx
  {
    IndexFits(s, k);
  }

  /** The pass keeps the first character, and an empty text empty. */
  lemma FirstCharacterKept(s: string, k: string)
    requires k != ""
    ensures s == "" <==> Replace(s, k) == ""
    ensures s != "" ==> Replace(s, k)[0] == s[0]
  {
    IndexFits(s, k);
  }

  lemma WrittenAround(a: string, v: string, rest: string, k: string)
    requires |a| >= |k| && NoStop(v) && StopsFirst(rest)
    ensures Written(a + (v + rest), k, |a| - |k|) == a + Kept(v, rest)
    ensures Left(a + (v + rest), k, |a| - |k|) == rest
  {
    hide ValueLength, StartsRedacted, Placeholder, NoStop, StopsFirst;
    var s := a + (v + rest);
    assert s[|a|..] == v + rest && s[..|a|] == a;
    ValueIs(v, rest);
    assert s[..|a| + |v|] == a + v;
    assert s[|a| + |v|..] == rest;
  }

  /** The step at the first occurrence, in terms of what stands around it. */
  lemma StepAt(a: string, v: string, rest: string, k: string)
    requires k != "" && |a| >= |k| && Index(a + (v + rest), k) == |a| - |k|
    requires NoStop(v) && StopsFirst(rest)
    ensures Replace(a + (v + rest), k) == a + Kept(v, rest) + Replace(rest, k)
  {
    hide At, Index, Replace, Written, Left, Kept, NoStop, StopsFirst;
    Unfold(a + (v + rest), k, |a| - |k|);
    WrittenAround(a, v, rest, k);
  }

  /** What a step leaves of the value `v`. */
  function Kept(v: string, rest: string): string {
    if v == "" || StartsRedacted(v + rest) then v else Placeholder()
  }

  /** Splits a text that holds the keyword at its first occurrence. */
  lemma Split(s: string, k: string) returns (a: string, v: string, rest: string)
    requires k != "" && Index(s, k) >= 0
    ensures |a| >= |k| && s == a + (v + rest) && Index(s, k) == |a| - |k|
    ensures NoStop(v) && StopsFirst(rest)
  {
    IndexFits(s, k);
    var start := Index(s, k) + |k|;
    hide Index, At;
    var n := ValueLength(s[start..]);
    ValueEnds(s[start..]);
    hide ValueLength;
    a, v, rest := s[..start], s[start..][..n], s[start..][n..];
  }

  lemma IndexAfter(c: char, s: string, k: string)
    requires k != "" && !At([c] + s, 0, k)
    ensures Index([c] + s, k) == if Index(s, k) < 0 then -1 else Index(s, k) + 1
  {
    assert ([c] + s)[1..] == s;
  }

  /** A character the keyword does not stand at is copied. */
  lemma CopiesOne(c: char, s: string, k: string)
    requires k != "" && !At([c] + s, 0, k)
    ensures Replace([c] + s, k) == [c] + Replace(s, k)
  {
    IndexAfter(c, s, k);
    if Index(s, k) < 0 {
      IndexFits(s, k);
    } else {
      var a, v, rest := Split(s, k);
      hide Replace, Index, At, Kept, NoStop, StopsFirst;
      StepAt(a, v, rest, k);
      Assoc([c], a, v + rest);
      StepAt([c] + a, v, rest, k);
      Assoc([c], a, Kept(v, rest));
      Assoc([c], a + Kept(v, rest), Replace(rest, k));
    }
  }

  /** So is one the keyword does not start with. */
  lemma CopiesStop(c: char, s: string, k: string)
    requires k != "" && k[0] != c
    ensures Replace([c] + s, k) == [c] + Replace(s, k)
  {
    var t := [c] + s;
    assert |k| <= |t| ==> t[0..|k|][0] == c;
    CopiesOne(c, s, k);
  }

  /** No stop occurs in the mark, so it lies within the value it starts. */
  lemma MarkWithinValue(v: string, rest: string)
    requires StopsFirst(rest)
    ensures StartsRedacted(v + rest) == StartsRedacted(v)
  {
    if |v| < 9 && rest != "" {
      assert (v + rest)[|v|] == rest[0];
      assert !Stops("[REDACTED"[|v|]);
    }
  }

  /** A second pass finds the keyword at the same place, followed by nothing or by
      something already redacted. */
  lemma SecondStep(a: string, v: string, rest: string, tail: string, k: string)
    requires k != "" && k[0] != ']' && |a| >= |k| && Index(a + (v + rest), k) == |a| - |k|
    requires NoStop(v) && StopsFirst(rest) && StopsFirst(tail)
    ensures Replace(a + Kept(v, rest) + tail, k) == a + Kept(v, rest) + Replace(tail, k)
  {
    hide At, Index, Replace, StartsRedacted, Placeholder, NoStop, StopsFirst;
    MarkWithinValue(v, rest);
    if v == "" || StartsRedacted(v) {
      SecondStepKept(a, v, rest, tail, k);
    } else {
      SecondStepReplaced(a, v, rest, tail, k);
    }
  }

  lemma SecondStepKept(a: string, v: string, rest: string, tail: string, k: string)
    requires k != "" && |a| >= |k| && Index(a + (v + rest), k) == |a| - |k|
    requires NoStop(v) && StopsFirst(tail) && (v == "" || StartsRedacted(v))
    ensures Replace(a + v + tail, k) == a + v + Replace(tail, k)
  {
    hide At, Index, Replace, StartsRedacted, Placeholder, NoStop, StopsFirst;
    Assoc(a, v, tail);
    IndexFromPrefix(a, v + rest, v + tail, k);
    MarkWithinValue(v, tail);
    StepAt(a, v, tail, k);
  }

  lemma SecondStepReplaced(a: string, v: string, rest: string, tail: string, k: string)
    requires k != "" && k[0] != ']' && |a| >= |k| && Index(a + (v + rest), k) == |a| - |k|
    requires StopsFirst(tail)
    ensures Replace(a + Placeholder() + tail, k) == a + Placeholder() + Replace(tail, k)
  {
    hide At, Index, Replace;
    var mark := PlaceholderStart();
    hide Placeholder, NoStop, StartsRedacted;
    var bracket := [']'] + tail;
    assert StopsFirst(bracket);
    Around(a, mark, [']'], tail);
    Around(a, mark, [']'], Replace(tail, k));
    hide StopsFirst;
    IndexFromPrefix(a, v + rest, mark + bracket, k);
    MarkWithinValue(mark, bracket);
    StepAt(a, mark, bracket, k);
    CopiesStop(']', tail, k);
  }

  /** A placeholder, as the scan meets it: a value that is already redacted, and
      the bracket that ends it. */
  lemma PlaceholderStart() returns (mark: string)
    ensures Placeholder() == mark + [']'] && NoStop(mark) && StartsRedacted(mark)
  {
    mark := "[REDACTED-NODE";
  }

  lemma Around(a: string, mark: string, c: string, tail: string)
    ensures a + (mark + c) + tail == a + (mark + (c + tail)) == a + mark + (c + tail)
  {
    Assoc(a, mark + c, tail);
    Assoc(mark, c, tail);
    Assoc(a, mark, c + tail);
  }

  /** A second pass changes nothing, for any keyword that does not start with the
      bracket a placeholder ends with. */
  lemma {:induction false} PassIsIdempotent(s: string, k: string)
    requires k != "" && k[0] != ']'
    ensures Replace(Replace(s, k), k) == Replace(s, k)
    decreases |s|
  {
    if Index(s, k) >= 0 {
      var a, v, rest := Split(s, k);
      StepAt(a, v, rest, k);
      PassIsIdempotent(rest, k);
      FirstCharacterKept(rest, k);
      hide Replace, Index;
      SecondStep(a, v, rest, Replace(rest, k), k);
    }
  }
}
