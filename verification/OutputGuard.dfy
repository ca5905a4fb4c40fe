/** `OutputGuardService`: redaction of a text by an ordered list of rules, and of a
    stream chunk through a carry buffer. */
module OutputGuard {
  import opened Splice
  import opened Ssn
  import opened Texts

  /** A regex (its `finditer`), the label it reports, and its validator. */
  datatype Rule = Rule(find: string -> seq<Span>, typeLabel: string, validator: (string, Span) -> bool)

  datatype RedactionResult = RedactionResult(redactedText: string, redactionCount: nat, redactedTypes: set<string>)

  const CARRY_SIZE := 30

  /** All the model assumes of the regex engine. */
  ghost predicate IsRegex(rule: Rule) {
    forall text: string :: Ordered(|text|, rule.find(text), 0)
  }

  ghost predicate AreRegexes(rules: seq<Rule>) {
    forall i :: 0 <= i < |rules| ==> IsRegex(rules[i])
  }

  function Placeholder(typeLabel: string): string { "[REDACTED:" + typeLabel + "]" }

  function FindSsn(text: string): seq<Span> { FindFrom(text, 0) }

  /** A rule without a validator. */
  predicate NoValidator(text: string, m: Span) { true }

  const SSN_RULE := Rule(FindSsn, "SSN", NoValidator)

  /** The SSN rule alone. */
  function SsnOnly(): seq<Rule> { [SSN_RULE] }

  /** The matches a validator keeps as real. */
  function Accepted(rule: Rule, text: string, spans: seq<Span>): seq<Span> {
    if spans == [] then []
    else (if rule.validator(text, spans[0]) then [spans[0]] else []) + Accepted(rule, text, spans[1..])
  }

  ghost function Hits(rule: Rule, text: string): seq<Span> { Accepted(rule, text, rule.find(text)) }

  /** One rule: the accepted matches filled in, everything else kept. */
  ghost function RedactRule(rule: Rule, text: string): string
    requires IsRegex(rule)
  {
    AcceptedOrdered(rule, text, |text|, rule.find(text), 0);
    Fill(text, Hits(rule, text), Placeholder(rule.typeLabel), 0)
  }

  ghost function RedactNext(before: RedactionResult, rule: Rule): RedactionResult
    requires IsRegex(rule)
  {
    var hits := Hits(rule, before.redactedText);
    RedactionResult(
      RedactRule(rule, before.redactedText),
      before.redactionCount + |hits|,
      if hits == [] then before.redactedTypes else before.redactedTypes + {rule.typeLabel})
  }

  /** The rules one after the other, each on the text the previous one left. */
  ghost function RedactAll(rules: seq<Rule>, text: string): RedactionResult
    requires AreRegexes(rules)
  {
    if rules == [] then RedactionResult(text, 0, {})
    else RedactNext(RedactAll(rules[..|rules|-1], text), rules[|rules|-1])
  }

  ghost function Redacted(rules: seq<Rule>, text: string): string
    requires AreRegexes(rules)
  {
    RedactAll(rules, text).redactedText
  }

  lemma {:induction false} OrderedEarlier(n: nat, spans: seq<Span>, pos: nat, mid: nat)
    requires pos <= mid && Ordered(n, spans, mid)
    ensures Ordered(n, spans, pos)
  {
    OrderedInside(n, spans, mid);
  }

  lemma {:induction false} AcceptedOrdered(rule: Rule, text: string, n: nat, spans: seq<Span>, pos: nat)
    requires Ordered(n, spans, pos)
    ensures Ordered(n, Accepted(rule, text, spans), pos)
  {
    if spans == [] {
    } else {
      var rest := Accepted(rule, text, spans[1..]);
      AcceptedOrdered(rule, text, n, spans[1..], spans[0].end);
      if rule.validator(text, spans[0]) {
        assert ([spans[0]] + rest)[1..] == rest;
      } else {
        assert [] + rest == rest;
        OrderedEarlier(n, rest, pos, spans[0].end);
      }
    }
  }

  ghost function EndBefore(spans: seq<Span>, k: nat): nat
    requires k <= |spans|
  {
    if k == 0 then 0 else spans[k-1].end
  }

  lemma {:induction false} OrderedSuffix(n: nat, spans: seq<Span>, k: nat)
    requires Ordered(n, spans, 0) && k <= |spans|
    ensures Ordered(n, spans[k..], EndBefore(spans, k))
  {
    if k == 0 {
      assert spans[0..] == spans;
    } else {
      OrderedSuffix(n, spans, k - 1);
      assert spans[k-1..][1..] == spans[k..];
    }
  }

  /** What is known of the text while the matches from `k` on have been spliced. */
  ghost predicate SplicedFrom(rule: Rule, text: string, spans: seq<Span>, k: nat, result: string)
    requires Ordered(|text|, spans, 0) && k <= |spans|
  {
    var e := EndBefore(spans, k);
    var hits := Accepted(rule, text, spans[k..]);
    && Ordered(|text|, hits, e)
    && e <= |text|
    && result == text[..e] + Fill(text, hits, Placeholder(rule.typeLabel), e)
  }

  lemma SpliceStep(rule: Rule, text: string, spans: seq<Span>, k: nat, result: string)
    requires Ordered(|text|, spans, 0) && k < |spans|
    requires SplicedFrom(rule, text, spans, k + 1, result)
    ensures spans[k].start <= spans[k].end <= |result|
    ensures var next := if rule.validator(text, spans[k])
                        then result[..spans[k].start] + Placeholder(rule.typeLabel) + result[spans[k].end..]
                        else result;
            SplicedFrom(rule, text, spans, k, next)
  {
    var m, e, ph := spans[k], EndBefore(spans, k), Placeholder(rule.typeLabel);
    var rest := Accepted(rule, text, spans[k+1..]);
    OrderedSuffix(|text|, spans, k);
    assert spans[k..][1..] == spans[k+1..];
    if rule.validator(text, m) {
      SpliceHit(text, rest, ph, e, m);
      assert Accepted(rule, text, spans[k..]) == [m] + rest;
    } else {
      SpliceMiss(text, rest, ph, e, m);
      assert Accepted(rule, text, spans[k..]) == rest;
    }
  }

  lemma SpliceHit(text: string, rest: seq<Span>, ph: string, e: nat, m: Span)
    requires e <= m.start <= m.end && Ordered(|text|, rest, m.end)
    ensures m.end <= |text| && Ordered(|text|, [m] + rest, e)
    ensures var tail := Fill(text, rest, ph, m.end);
            (text[..m.end] + tail)[..m.start] + ph + (text[..m.end] + tail)[m.end..]
            == text[..e] + Fill(text, [m] + rest, ph, e)
  {
    OrderedInside(|text|, rest, m.end);
    var tail := Fill(text, rest, ph, m.end);
    assert ([m] + rest)[1..] == rest;
    SliceAppend(text[..m.end], tail, m.start);
    SliceAppend(text[..m.end], tail, m.end);
    calc {
      (text[..m.end] + tail)[..m.start] + ph + (text[..m.end] + tail)[m.end..];
      { assert text[..m.end][..m.start] == text[..e] + text[e..m.start]; assert text[..m.end][m.end..] == ""; assert "" + tail == tail; }
      text[..e] + text[e..m.start] + ph + tail;
      { Assoc(text[..e], text[e..m.start], ph); }
      text[..e] + (text[e..m.start] + ph) + tail;
      { Assoc(text[..e], text[e..m.start] + ph, tail); }
      text[..e] + (text[e..m.start] + ph + tail);
    }
  }

  lemma SpliceMiss(text: string, rest: seq<Span>, ph: string, e: nat, m: Span)
    requires e <= m.start <= m.end && Ordered(|text|, rest, m.end)
    ensures m.end <= |text| && Ordered(|text|, rest, e)
    ensures text[..m.end] + Fill(text, rest, ph, m.end) == text[..e] + Fill(text, rest, ph, e)
  {
    OrderedInside(|text|, rest, m.end);
    FillFrom(text, rest, ph, e, m.end);
    assert text[..m.end] == text[..e] + text[e..m.end];
    Assoc(text[..e], text[e..m.end], Fill(text, rest, ph, m.end));
  }

  lemma NothingSpliced(rule: Rule, text: string, spans: seq<Span>)
    requires Ordered(|text|, spans, 0)
    ensures SplicedFrom(rule, text, spans, |spans|, text)
    ensures Accepted(rule, text, spans[|spans|..]) == []
  {
    var k := |spans|;
    OrderedSuffix(|text|, spans, k);
    assert text == text[..EndBefore(spans, k)] + text[EndBefore(spans, k)..];
  }

  /** Once all are spliced the text is the rebuilt one. */
  lemma AllSpliced(rule: Rule, text: string, result: string)
    requires IsRegex(rule) && SplicedFrom(rule, text, rule.find(text), 0, result)
    ensures result == RedactRule(rule, text)
    ensures Accepted(rule, text, rule.find(text)[0..]) == Hits(rule, text)
  {
    assert rule.find(text)[0..] == rule.find(text);
  }

  /** The inner loop of `redact`: splice the matches of one rule from the last to the first. */
  method ApplyRule(rule: Rule, text: string) returns (result: string, count: nat)
    requires IsRegex(rule)
    ensures result == RedactRule(rule, text)
    ensures count == |Hits(rule, text)|
  {
    var matches := rule.find(text);
    result, count := text, 0;
    var k := |matches|;
    NothingSpliced(rule, text, matches);
    while k > 0
      invariant 0 <= k <= |matches|
      invariant SplicedFrom(rule, text, matches, k, result)
      invariant count == |Accepted(rule, text, matches[k..])|
    {
      k := k - 1;
      SpliceStep(rule, text, matches, k, result);
      assert matches[k..][1..] == matches[k+1..];
      if rule.validator(text, matches[k]) {
        result := result[..matches[k].start] + Placeholder(rule.typeLabel) + result[matches[k].end..];
        count := count + 1;
      }
    }
    AllSpliced(rule, text, result);
  }

  lemma NextRule(rules: seq<Rule>, i: nat, text: string)
    requires AreRegexes(rules) && i < |rules|
    ensures RedactAll(rules[..i+1], text) == RedactNext(RedactAll(rules[..i], text), rules[i])
  {
    var upTo := rules[..i+1];
    assert upTo[..|upTo|-1] == rules[..i] && upTo[|upTo|-1] == rules[i];
  }

  method Redact(rules: seq<Rule>, text: string) returns (r: RedactionResult)
    requires AreRegexes(rules)
    ensures r == RedactAll(rules, text)
  {
    var resultText, count, types := text, 0, {};
    for i := 0 to |rules|
      invariant RedactionResult(resultText, count, types) == RedactAll(rules[..i], text)
    {
      NextRule(rules, i, text);
      var spliced, hits := ApplyRule(rules[i], resultText);
      resultText, count := spliced, count + hits;
      if hits > 0 { types := types + {rules[i].typeLabel}; }
    }
    assert rules[..|rules|] == rules;
    r := RedactionResult(resultText, count, types);
  }

  // ----- what is reported -----

  /** Redacting by the rules `a + b` is redacting by `a` and then by `b`: the counts add up and
      the types come together. */
  lemma {:induction false} RulesCompose(a: seq<Rule>, b: seq<Rule>, text: string)
    requires AreRegexes(a) && AreRegexes(b) && AreRegexes(a + b)
    ensures var r, s := RedactAll(a, text), RedactAll(b, RedactAll(a, text).redactedText);
            RedactAll(a + b, text) ==
            RedactionResult(s.redactedText, r.redactionCount + s.redactionCount, r.redactedTypes + s.redactedTypes)
  {
    if b == [] {
      assert a + b == a;
    } else {
      var init := b[..|b|-1];
      var r := RedactAll(a, text);
      LastOfSum(a, b);
      RulesCompose(a, init, text);
      NextComposes(r, RedactAll(init, r.redactedText), b[|b|-1]);
    }
  }

  lemma LastOfSum(a: seq<Rule>, b: seq<Rule>)
    requires b != []
    ensures a + b != [] && (a + b)[..|a + b|-1] == a + b[..|b|-1] && (a + b)[|a + b|-1] == b[|b|-1]
  {
  }

  lemma NextComposes(r: RedactionResult, s: RedactionResult, rule: Rule)
    requires IsRegex(rule)
    ensures var n := RedactNext(s, rule);
            RedactNext(RedactionResult(s.redactedText, r.redactionCount + s.redactionCount, r.redactedTypes + s.redactedTypes), rule)
            == RedactionResult(n.redactedText, r.redactionCount + n.redactionCount, r.redactedTypes + n.redactedTypes)
  {
  }

  /** One rule counts its accepted matches, and reports its label if and only if there are any. */
  lemma OneRuleReports(rule: Rule, text: string)
    requires IsRegex(rule)
    ensures RedactAll([rule], text) ==
            RedactionResult(RedactRule(rule, text), |Hits(rule, text)|,
                            if |Hits(rule, text)| > 0 then {rule.typeLabel} else {})
    ensures RedactAll([], text) == RedactionResult(text, 0, {})
  {
    assert [rule][..0] == [];
  }

  /** A match counts if and only if the validator takes it. */
  lemma {:induction false} HitsAreValid(rule: Rule, text: string, spans: seq<Span>, m: Span)
    ensures m in Accepted(rule, text, spans) <==> m in spans && rule.validator(text, m)
  {
    if spans == [] {
    } else {
      HitsAreValid(rule, text, spans[1..], m);
    }
  }

  /** Nothing is reported if and only if nothing was replaced, and then the text is unchanged. */
  lemma {:induction false} ReportIsHonest(rules: seq<Rule>, text: string)
    requires AreRegexes(rules)
    ensures var r := RedactAll(rules, text);
            && (r.redactionCount == 0 <==> r.redactedTypes == {})
            && (r.redactionCount == 0 ==> r.redactedText == text)
  {
    if rules == [] {
    } else {
      var init, rule := rules[..|rules|-1], rules[|rules|-1];
      ReportIsHonest(init, text);
      if Hits(rule, Redacted(init, text)) == [] {
        NoHits(rule, Redacted(init, text));
      } else {
        assert rule.typeLabel in RedactAll(rules, text).redactedTypes;
      }
    }
  }

  lemma NoHits(rule: Rule, text: string)
    requires IsRegex(rule) && Hits(rule, text) == []
    ensures RedactRule(rule, text) == text
  {
    AcceptedOrdered(rule, text, |text|, rule.find(text), 0);
    assert text[0..] == text;
  }

  /** The tail that is held back, and what may be sent. */
  function Held(redacted: string): string {
    if |redacted| > CARRY_SIZE then redacted[|redacted| - CARRY_SIZE..] else redacted
  }

  function Safe(redacted: string): string {
    if |redacted| > CARRY_SIZE then redacted[..|redacted| - CARRY_SIZE] else ""
  }

  /** Nothing is lost or reordered between two chunks, and at most thirty characters wait. */
  method RedactStreamChunk(rules: seq<Rule>, chunk: string, carryBuffer: string)
    returns (safeToSend: string, newCarry: string)
    requires AreRegexes(rules)
    ensures safeToSend + newCarry == Redacted(rules, carryBuffer + chunk)
    ensures |newCarry| <= CARRY_SIZE
    ensures safeToSend != "" ==> |newCarry| == CARRY_SIZE
  {
    var result := Redact(rules, carryBuffer + chunk);
    var redacted := result.redactedText;
    if |redacted| > CARRY_SIZE {
      safeToSend := redacted[..|redacted| - CARRY_SIZE];
      newCarry := redacted[|redacted| - CARRY_SIZE..];
    } else {
      safeToSend := "";
      newCarry := redacted;
    }
  }

  /** For every rule whose accepted matches are `hits`: the new length is fixed by them. */
  lemma RuleLength(rule: Rule, text: string)
    requires IsRegex(rule)
    ensures |RedactRule(rule, text)|
         == |text| - Widths(Hits(rule, text)) + |Hits(rule, text)| * |Placeholder(rule.typeLabel)|
  {
    AcceptedOrdered(rule, text, |text|, rule.find(text), 0);
    FillLength(text, Hits(rule, text), Placeholder(rule.typeLabel), 0);
  }

  lemma SsnRuleIsRegex()
    ensures IsRegex(SSN_RULE) && AreRegexes(SsnOnly())
  {
    forall text: string ensures Ordered(|text|, SSN_RULE.find(text), 0) {
      FindFromOrdered(text, 0);
    }
    assert IsRegex(SSN_RULE);
  }

  lemma {:induction false} SsnAcceptsAll(text: string, spans: seq<Span>)
    ensures Accepted(SSN_RULE, text, spans) == spans
  {
    if spans == [] {
    } else {
      SsnAcceptsAll(text, spans[1..]);
    }
  }

  lemma SsnHits(text: string)
    ensures Hits(SSN_RULE, text) == FindFrom(text, 0)
  {
    assert SSN_RULE.find(text) == FindSsn(text);
    SsnAcceptsAll(text, FindFrom(text, 0));
  }

  lemma OneRulePass(rule: Rule, text: string)
    requires IsRegex(rule) && rule.typeLabel == "SSN"
    requires Hits(rule, text) == FindFrom(text, 0)
    ensures Redacted([rule], text) == RedactFrom(text, 0, 0)
  {
    var rules := [rule];
    NextRule(rules, 0, text);
    assert rules[..1] == rules;
    FillIsRedact(text, 0);
    assert Placeholder("SSN") == SSN_PLACEHOLDER;
  }

  /** The SSN rule alone is the character-by-character pass. */
  lemma SsnRulePass(text: string)
    ensures AreRegexes(SsnOnly())
    ensures Redacted(SsnOnly(), text) == RedactFrom(text, 0, 0)
  {
    SsnRuleIsRegex();
    SsnHits(text);
    OneRulePass(SSN_RULE, text);
  }
}
