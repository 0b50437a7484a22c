/** Redacting UIDs: one pass from left to right leaves no UUID window, changes
    nothing else, and has nothing to do a second time. */
module UidRedaction {
  import opened Common

  const PLACEHOLDER := "[REDACTED-UID]"

  predicate HexDigit(c: char) {
    '0' <= c <= '9' || 'a' <= c <= 'f' || 'A' <= c <= 'F'
  }

  predicate Hyphen(i: nat) {
    i == 8 || i == 13 || i == 18 || i == 23
  }

  /** The text form of section 4 of RFC 9562. */
  predicate IsUUID(s: string) {
    |s| == 36 && forall i | 0 <= i < 36 :: if Hyphen(i) then s[i] == '-' else HexDigit(s[i])
  }

  predicate UUIDAt(s: string, i: nat) {
    i + 36 <= |s| && IsUUID(s[i..i + 36])
  }

  /** Hyphens at four places, hexadecimal digits everywhere else. */
  lemma UUIDMeans(s: string)
    ensures IsUUID(s) <==>
      && |s| == 36 && s[8] == s[13] == s[18] == s[23] == '-'
      && forall i | 0 <= i < 36 && i !in {8, 13, 18, 23} :: s[i] in "0123456789abcdefABCDEF"
  {
    forall c: char ensures HexDigit(c) <==> c in "0123456789abcdefABCDEF" {
      HexDigitMeans(c);
    }
  }

  lemma HexDigitMeans(c: char)
    ensures HexDigit(c) <==> c in "0123456789abcdefABCDEF"
  {
    var digits := "0123456789abcdefABCDEF";
    if '0' <= c <= '9' { assert digits[c as int - '0' as int] == c; }
    if 'a' <= c <= 'f' { assert digits[10 + c as int - 'a' as int] == c; }
    if 'A' <= c <= 'F' { assert digits[16 + c as int - 'A' as int] == c; }
  }

  method CheckUUID(s: string) returns (ok: bool)
    ensures ok <==> IsUUID(s)
  {
    if |s| != 36 {
      return false;
    }
    for i := 0 to 36
      invariant forall j | 0 <= j < i :: if Hyphen(j) then s[j] == '-' else HexDigit(s[j])
    {
      if Hyphen(i) {
        if s[i] != '-' {
          return false;
        }
      } else if !HexDigit(s[i]) {
        return false;
      }
    }
    return true;
  }

  function Redact(s: string): string {
    if s == [] then []
    else if UUIDAt(s, 0) then PLACEHOLDER + Redact(s[36..])
    else [s[0]] + Redact(s[1..])
  }

  lemma RedactFrom(s: string, i: nat)
    requires i < |s|
    ensures Redact(s[i..]) == if UUIDAt(s, i) then PLACEHOLDER + Redact(s[i + 36..]) else [s[i]] + Redact(s[i + 1..])
  {
    var rest := s[i..];
    assert rest[1..] == s[i + 1..];
    if i + 36 <= |s| {
      assert rest[0..36] == s[i..i + 36] && rest[36..] == s[i + 36..];
    }
  }

  lemma RedactNext(done: string, s: string, i: nat, piece: string, n: nat)
    requires i < |s| && n == (if UUIDAt(s, i) then 36 else 1) && piece == if n == 36 then PLACEHOLDER else [s[i]]
    ensures (done + piece) + Redact(s[i + n..]) == done + Redact(s[i..])
  {
    RedactFrom(s, i);
    hide Redact, IsUUID;
    Assoc(done, piece, Redact(s[i + n..]));
  }

  lemma RedactNothing()
    ensures Redact("") == ""
  {
  }

  method RedactUIDs(s: string) returns (result: string)
    ensures result == Redact(s)
  {
    hide Redact, IsUUID;
    RedactNothing();
    result := "";
    var i := 0;
    assert s[0..] == s;
    while i < |s|
      invariant 0 <= i <= |s| && result + Redact(s[i..]) == Redact(s)
    {
      var uuid := false;
      if i + 36 <= |s| {
        uuid := CheckUUID(s[i..i + 36]);
      }
      RedactNext(result, s, i, if uuid then PLACEHOLDER else [s[i]], if uuid then 36 else 1);
      if uuid {
        result := result + PLACEHOLDER;
        i := i + 36;
      } else {
        result := result + [s[i]];
        i := i + 1;
      }
    }
    assert s[|s|..] == [];
  }

  /** A UUID becomes the placeholder, whatever follows it. */
  lemma UUIDIsReplaced(uuid: string, rest: string)
    requires IsUUID(uuid)
    ensures Redact(uuid + rest) == "[REDACTED-UID]" + Redact(rest)
  {
    var s := uuid + rest;
    assert s[0..36] == uuid && s[36..] == rest;
  }

  ghost predicate Clean(s: string) {
    forall i: nat | i < |s| :: !UUIDAt(s, i)
  }

  lemma NoUUIDAcrossBracket(s: string, i: nat, j: nat)
    requires i <= j < i + 36 && j < |s| && (s[j] == '[' || s[j] == ']')
    ensures !UUIDAt(s, i)
  {
    assert i + 36 <= |s| ==> s[i..i + 36][j - i] == s[j];
  }

  lemma WindowAfter(head: string, rest: string, i: nat)
    requires |head| <= i
    ensures UUIDAt(head + rest, i) == UUIDAt(rest, i - |head|)
  {
    assert i + 36 <= |head + rest| ==> (head + rest)[i..i + 36] == rest[i - |head|..i - |head| + 36];
  }

  /** Output before the first placeholder is input. */
  lemma {:induction false} PlainPrefix(s: string, n: nat)
    requires n <= |Redact(s)| && '[' !in Redact(s)[..n]
    ensures n <= |s| && s[..n] == Redact(s)[..n]
  {
    if n > 0 {
      assert Redact(s)[0] == Redact(s)[..n][0];
      var rest := Redact(s[1..]);
      assert Redact(s)[..n] == [s[0]] + rest[..n - 1];
      PlainPrefix(s[1..], n - 1);
      assert s[..n] == [s[0]] + s[1..][..n - 1];
    }
  }

  /** A text that does not start with a UUID is not given one. */
  lemma NoUUIDAtStart(s: string)
    requires !UUIDAt(s, 0)
    ensures !UUIDAt(Redact(s), 0)
  {
    var r := Redact(s);
    if 36 <= |r| {
      if '[' in r[..36] {
        var j :| 0 <= j < 36 && r[..36][j] == '[';
        NoUUIDAcrossBracket(r, 0, j);
      } else {
        PlainPrefix(s, 36);
        assert s[0..36] == s[..36] == r[..36] == r[0..36];
      }
    }
  }

  /** No UUID is left, not even one made by joining what surrounds a placeholder. */
  lemma {:induction false} NoUUIDLeft(s: string)
    ensures Clean(Redact(s))
  {
    if s != [] {
      var uuid := UUIDAt(s, 0);
      var head, rest := if uuid then PLACEHOLDER else [s[0]], if uuid then s[36..] else s[1..];
      NoUUIDLeft(rest);
      if !uuid {
        NoUUIDAtStart(s);
      }
      forall i: nat | i < |Redact(s)| ensures !UUIDAt(Redact(s), i) {
        assert Redact(s) == head + Redact(rest);
        hide Redact, UUIDAt;
        if i >= |head| {
          WindowAfter(head, Redact(rest), i);
        } else if uuid {
          assert (head + Redact(rest))[13] == ']';
          NoUUIDAcrossBracket(head + Redact(rest), i, 13);
        }
      }
    }
  }

  lemma {:induction false} CleanUnchanged(s: string)
    requires Clean(s)
    ensures Redact(s) == s
  {
    if s != [] {
      forall i: nat | i < |s[1..]| ensures !UUIDAt(s[1..], i) {
        assert !UUIDAt(s, i + 1);
        if i + 36 <= |s[1..]| {
          assert s[1..][i..i + 36] == s[i + 1..i + 1 + 36];
        }
      }
      CleanUnchanged(s[1..]);
      assert !UUIDAt(s, 0);
    }
  }

  /** Exactly the texts without a UUID are left alone, so a second pass changes
      nothing. */
  lemma UnchangedExactly(s: string)
    ensures Redact(s) == s <==> Clean(s)
    ensures Redact(Redact(s)) == Redact(s)
  {
    NoUUIDLeft(s);
    CleanUnchanged(Redact(s));
    if Clean(s) {
      CleanUnchanged(s);
    }
  }

  // ------------------------------------------------------------- other text

  datatype Piece = Text(text: string) | Uid(text: string)

  function Original(pieces: seq<Piece>): string {
    if pieces == [] then "" else pieces[0].text + Original(pieces[1..])
  }

  function Redacted(pieces: seq<Piece>): string {
    if pieces == [] then ""
    else (if pieces[0].Uid? then PLACEHOLDER else pieces[0].text) + Redacted(pieces[1..])
  }

  /** The output is the input with some UUIDs, and nothing else, replaced. */
  lemma {:induction false} OnlyUUIDsReplaced(s: string) returns (pieces: seq<Piece>)
    ensures Original(pieces) == s && Redacted(pieces) == Redact(s)
    ensures forall i | 0 <= i < |pieces| && pieces[i].Uid? :: IsUUID(pieces[i].text)
  {
    if s == [] {
      pieces := [];
    } else {
      var n := if UUIDAt(s, 0) then 36 else 1;
      var rest := OnlyUUIDsReplaced(s[n..]);
      var piece := if UUIDAt(s, 0) then Uid(s[..36]) else Text([s[0]]);
      pieces := [piece] + rest;
      assert n == 36 ==> s[0..36] == s[..36];
      assert s == piece.text + s[n..];
      assert pieces[1..] == rest;
    }
  }
}
