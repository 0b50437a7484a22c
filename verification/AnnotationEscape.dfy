/** Escaping workflow-annotation text: a chain of replace-all passes is one
    simultaneous substitution, its output holds no separator, and percent-decoding
    takes it back. */
module AnnotationEscape {
  import opened Common

  /** Replace every `from` by `to`. */
  datatype Rule = Rule(from: char, to: string)

  /** strings.ReplaceAll for a one-character pattern. */
  function ReplaceAll(s: string, rule: Rule): string {
    if s == "" then ""
    else (if s[0] == rule.from then rule.to else [s[0]]) + ReplaceAll(s[1..], rule)
  }

  /** One pass after the other. */
  function Passes(s: string, rules: seq<Rule>): string {
    if rules == [] then s else ReplaceAll(Passes(s, rules[..|rules| - 1]), rules[|rules| - 1])
  }

  const MESSAGE := [Rule('%', "%25"), Rule('\r', "%0D"), Rule('\n', "%0A")]
  const PROPERTY := MESSAGE + [Rule(':', "%3A"), Rule(',', "%2C")]

  function EscapeMessage(value: string): string {
    var value := ReplaceAll(value, Rule('%', "%25"));
    var value := ReplaceAll(value, Rule('\r', "%0D"));
    ReplaceAll(value, Rule('\n', "%0A"))
  }

  function EscapeProperty(value: string): string {
    var value := ReplaceAll(value, Rule('%', "%25"));
    var value := ReplaceAll(value, Rule('\r', "%0D"));
    var value := ReplaceAll(value, Rule('\n', "%0A"));
    var value := ReplaceAll(value, Rule(':', "%3A"));
    ReplaceAll(value, Rule(',', "%2C"))
  }

  lemma EscapesArePasses(value: string)
    ensures EscapeMessage(value) == Passes(value, MESSAGE)
    ensures EscapeProperty(value) == Passes(value, PROPERTY)
  {
    var m := MESSAGE;
    assert m[..2][..1][..0] == [] && m[..2][..1] == m[..1] && m[..2][1] == m[1];
    assert Passes(value, m[..1]) == ReplaceAll(value, m[0]);
    var p := PROPERTY;
    assert p[..4] == MESSAGE + [p[3]] && p[..4][..3] == MESSAGE;
  }

  // ------------------------------------------------ one simultaneous substitution

  /** The code of one character under the first rule that names it. */
  function Code(c: char, rules: seq<Rule>): string {
    if rules == [] then [c] else if rules[0].from == c then rules[0].to else Code(c, rules[1..])
  }

  function Simultaneous(s: string, rules: seq<Rule>): string {
    if s == "" then "" else Code(s[0], rules) + Simultaneous(s[1..], rules)
  }

  /** No pass touches what an earlier pass wrote or replaced. */
  predicate Independent(rules: seq<Rule>) {
    forall i, j | 0 <= i < j < |rules| :: rules[j].from !in rules[i].to && rules[j].from != rules[i].from
  }

  lemma {:induction false} ReplaceAllConcat(a: string, b: string, rule: Rule)
    ensures ReplaceAll(a + b, rule) == ReplaceAll(a, rule) + ReplaceAll(b, rule)
  {
    if a == "" {
      assert a + b == b;
    } else {
      ReplaceAllConcat(a[1..], b, rule);
      assert (a + b)[1..] == a[1..] + b;
      var head := if a[0] == rule.from then rule.to else [a[0]];
      Assoc(head, ReplaceAll(a[1..], rule), ReplaceAll(b, rule));
    }
  }

  lemma {:induction false} ReplaceAllNone(s: string, rule: Rule)
    requires rule.from !in s
    ensures ReplaceAll(s, rule) == s
  {
    if s != "" {
      ReplaceAllNone(s[1..], rule);
    }
  }

  /** A rule added at the end applies to the characters no earlier rule names. */
  lemma {:induction false} CodeSnoc(c: char, rules: seq<Rule>, rule: Rule)
    requires forall i | 0 <= i < |rules| :: rule.from !in rules[i].to
    ensures Code(c, rules + [rule]) == ReplaceAll(Code(c, rules), rule)
  {
    if rules == [] {
      assert ReplaceAll("", rule) == "";
      assert [rule][1..] == [];
    } else if rules[0].from == c {
      ReplaceAllNone(rules[0].to, rule);
    } else {
      assert (rules + [rule])[1..] == rules[1..] + [rule];
      CodeSnoc(c, rules[1..], rule);
    }
  }

  lemma {:induction false} SimultaneousSnoc(s: string, rules: seq<Rule>, rule: Rule)
    requires forall i | 0 <= i < |rules| :: rule.from !in rules[i].to
    ensures Simultaneous(s, rules + [rule]) == ReplaceAll(Simultaneous(s, rules), rule)
  {
    if s != "" {
      SimultaneousSnoc(s[1..], rules, rule);
      CodeSnoc(s[0], rules, rule);
      ReplaceAllConcat(Code(s[0], rules), Simultaneous(s[1..], rules), rule);
    }
  }

  lemma {:induction false} NoRules(s: string)
    ensures Simultaneous(s, []) == s
  {
    if s != "" {
      NoRules(s[1..]);
    }
  }

  /** Passes in an independent order substitute every character once, by its code. */
  lemma {:induction false} PassesAreSimultaneous(s: string, rules: seq<Rule>)
    requires Independent(rules)
    ensures Passes(s, rules) == Simultaneous(s, rules)
  {
    if rules == [] {
      NoRules(s);
    } else {
      var n := |rules| - 1;
      PassesAreSimultaneous(s, rules[..n]);
      SimultaneousSnoc(s, rules[..n], rules[n]);
      assert rules == rules[..n] + [rules[n]];
    }
  }

  // -------------------------------------------------------------- decoding

  /** The value of a hexadecimal digit, or -1. */
  function Hex(c: char): int {
    if '0' <= c <= '9' then c as int - '0' as int
    else if 'A' <= c <= 'F' then c as int - 'A' as int + 10
    else if 'a' <= c <= 'f' then c as int - 'a' as int + 10
    else -1
  }

  /** Percent-decoding (section 2.1 of RFC 3986); a percent sign without two
      digits stands for itself. */
  function Decode(s: string): string {
    if s == "" then ""
    else if s[0] == '%' && |s| >= 3 && Hex(s[1]) >= 0 && Hex(s[2]) >= 0
    then [(Hex(s[1]) * 16 + Hex(s[2])) as char] + Decode(s[3..])
    else [s[0]] + Decode(s[1..])
  }

  /** The code of `c` decodes to it, whatever follows. */
  ghost predicate Decodable(rules: seq<Rule>) {
    forall c: char, rest: string :: DecodesTo(Code(c, rules), c, rest)
  }

  predicate DecodesTo(code: string, c: char, rest: string) {
    Decode(code + rest) == [c] + Decode(rest)
  }

  lemma {:induction false} RoundTrip(s: string, rules: seq<Rule>)
    requires Decodable(rules)
    ensures Decode(Simultaneous(s, rules)) == s
  {
    if s != "" {
      RoundTrip(s[1..], rules);
      assert DecodesTo(Code(s[0], rules), s[0], Simultaneous(s[1..], rules));
    }
  }

  lemma CodeOf(c: char)
    ensures Code(c, MESSAGE)
         == if c == '%' then "%25" else if c == '\r' then "%0D" else if c == '\n' then "%0A" else [c]
    ensures Code(c, PROPERTY) == if c == ':' then "%3A" else if c == ',' then "%2C" else Code(c, MESSAGE)
  {
    CodeByThree(c, Rule('%', "%25"), Rule('\r', "%0D"), Rule('\n', "%0A"), []);
    var colon, comma := Rule(':', "%3A"), Rule(',', "%2C");
    CodeByThree(c, Rule('%', "%25"), Rule('\r', "%0D"), Rule('\n', "%0A"), [colon, comma]);
    assert MESSAGE == MESSAGE + [];
    assert [colon, comma][1..] == [comma] && [comma][1..] == [];
    assert Code(c, [comma]) == if c == ',' then "%2C" else [c];
  }

  lemma CodeByThree(c: char, r0: Rule, r1: Rule, r2: Rule, more: seq<Rule>)
    ensures Code(c, [r0, r1, r2] + more)
         == if c == r0.from then r0.to else if c == r1.from then r1.to else if c == r2.from then r2.to
            else Code(c, more)
  {
    var two, one := [r1, r2] + more, [r2] + more;
    assert ([r0, r1, r2] + more)[1..] == two && two[1..] == one && one[1..] == more;
    assert Code(c, one) == if c == r2.from then r2.to else Code(c, more);
    assert Code(c, two) == if c == r1.from then r1.to else Code(c, one);
  }

  lemma PercentCode(a: char, b: char, rest: string)
    requires Hex(a) >= 0 && Hex(b) >= 0
    ensures Decode(['%', a, b] + rest) == [(Hex(a) * 16 + Hex(b)) as char] + Decode(rest)
  {
    var s := ['%', a, b] + rest;
    assert s[3..] == rest;
  }

  lemma PlainCode(c: char, rest: string)
    requires c != '%'
    ensures Decode([c] + rest) == [c] + Decode(rest)
  {
    assert ([c] + rest)[1..] == rest;
  }

  lemma CodesDecode()
    ensures Decodable(MESSAGE) && Decodable(PROPERTY)
  {
    forall c: char, rest: string
      ensures DecodesTo(Code(c, MESSAGE), c, rest) && DecodesTo(Code(c, PROPERTY), c, rest)
    {
      CodeOf(c);
      PercentCode('2', '5', rest);
      PercentCode('0', 'D', rest);
      PercentCode('0', 'A', rest);
      PercentCode('3', 'A', rest);
      PercentCode('2', 'C', rest);
      if c != '%' {
        PlainCode(c, rest);
      }
    }
  }

  // ------------------------------------------------------------- the escapers

  lemma {:induction false} SeparatorFree(s: string, rules: seq<Rule>, separator: char)
    requires forall c :: separator !in Code(c, rules)
    ensures separator !in Simultaneous(s, rules)
  {
    if s != "" {
      SeparatorFree(s[1..], rules, separator);
    }
  }

  lemma RulesAreIndependent()
    ensures Independent(MESSAGE) && Independent(PROPERTY)
  {
  }

  lemma EscapersSubstitute(value: string)
    ensures EscapeMessage(value) == Simultaneous(value, MESSAGE)
    ensures EscapeProperty(value) == Simultaneous(value, PROPERTY)
  {
    RulesAreIndependent();
    EscapesArePasses(value);
    hide Independent, EscapeMessage, EscapeProperty, Passes, Simultaneous;
    PassesAreSimultaneous(value, MESSAGE);
    PassesAreSimultaneous(value, PROPERTY);
  }

  /** The output holds none of the separators of its place in an annotation. */
  lemma EscapersLeaveNoSeparator(value: string, separator: char)
    ensures separator in {'\r', '\n'} ==> separator !in EscapeMessage(value)
    ensures separator in {'\r', '\n', ':', ','} ==> separator !in EscapeProperty(value)
  {
    EscapersSubstitute(value);
    if separator in {'\r', '\n', ':', ','} {
      forall c ensures separator !in Code(c, PROPERTY) {
        CodeOf(c);
      }
      SeparatorFree(value, PROPERTY, separator);
    }
    if separator in {'\r', '\n'} {
      forall c ensures separator !in Code(c, MESSAGE) {
        CodeOf(c);
      }
      SeparatorFree(value, MESSAGE, separator);
    }
  }

  /** Decoding restores every input. */
  lemma EscapersRoundTrip(value: string)
    ensures Decode(EscapeMessage(value)) == value
    ensures Decode(EscapeProperty(value)) == value
  {
    EscapersSubstitute(value);
    CodesDecode();
    RoundTrip(value, MESSAGE);
    RoundTrip(value, PROPERTY);
  }

  /** So different texts stay different. */
  lemma EscapersAreInjective(a: string, b: string)
    ensures EscapeMessage(a) == EscapeMessage(b) <==> a == b
    ensures EscapeProperty(a) == EscapeProperty(b) <==> a == b
  {
    EscapersRoundTrip(a);
    EscapersRoundTrip(b);
  }
}
