/** The SSN rule `(?<!\w)\d{3}-\d{2}-\d{4}(?!\w)` of the output guard. */
module Ssn {
  import opened CharClass
  import opened Splice

  const SSN_PLACEHOLDER := "[REDACTED:SSN]"

  /** Eleven characters `ddd-dd-dddd` at `i`, whatever surrounds them. */
  predicate ShapeAt(s: string, i: nat) {
    && i + 11 <= |s|
    && IsDigit(s[i]) && IsDigit(s[i+1]) && IsDigit(s[i+2])
    && s[i+3] == '-'
    && IsDigit(s[i+4]) && IsDigit(s[i+5])
    && s[i+6] == '-'
    && IsDigit(s[i+7]) && IsDigit(s[i+8]) && IsDigit(s[i+9]) && IsDigit(s[i+10])
  }

  /** Hyphens at the fourth and the seventh place, digits at all others. */
  predicate Hyphenated(x: string) {
    |x| == 11 && forall d :: 0 <= d < 11 ==> if d in {3, 6} then x[d] == '-' else IsDigit(x[d])
  }

  lemma ShapeIs(s: string, i: nat)
    ensures ShapeAt(s, i) <==> i + 11 <= |s| && Hyphenated(s[i..i+11])
  {
    if i + 11 <= |s| {
      var x := s[i..i+11];
      assert x[0] == s[i] && x[1] == s[i+1] && x[2] == s[i+2] && x[3] == s[i+3] && x[4] == s[i+4] && x[5] == s[i+5];
      assert x[6] == s[i+6] && x[7] == s[i+7] && x[8] == s[i+8] && x[9] == s[i+9] && x[10] == s[i+10];
    }
  }

  /** The pattern matches at `i` when the engine is handed `s[cut..]` only: text
      before `cut` was sent to the client already and cannot be looked at. */
  predicate MatchAt(s: string, cut: nat, i: nat) {
    && cut <= i
    && ShapeAt(s, i)
    && (i == cut || !IsWord(s[i-1]))
    && (i + 11 == |s| || !IsWord(s[i+11]))
  }

  /** A true SSN occurrence: the pattern matches at `i` in the whole text. */
  predicate SsnAt(s: string, i: nat) { MatchAt(s, 0, i) }

  /** The left-to-right scan of `finditer` from `p` on. */
  function FindFrom(s: string, p: nat): (spans: seq<Span>)
    requires p <= |s|
    decreases |s| - p
  {
    if p == |s| then []
    else if SsnAt(s, p) then [Span(p, p + 11)] + FindFrom(s, p + 11)
    else FindFrom(s, p + 1)
  }

  /** One SSN pass over `s[cut..]`, seen from `p` on, written character by character. */
  function RedactFrom(s: string, cut: nat, p: nat): string
    requires p <= |s|
    decreases |s| - p
  {
    if p == |s| then ""
    else if MatchAt(s, cut, p) then SSN_PLACEHOLDER + RedactFrom(s, cut, p + 11)
    else [s[p]] + RedactFrom(s, cut, p + 1)
  }

  /** Two shapes can overlap only by the last three digits of one being the first of the other. */
  lemma ShapesOverlap(s: string, i: nat, j: nat)
    requires ShapeAt(s, i) && ShapeAt(s, j) && i < j < i + 11
    ensures i + 8 <= j
  {
    var d := j - i;
    assert d == 1 || d == 2 || d == 3 || d == 4 || d == 5 || d == 6 || d == 7 || 8 <= d;
  }

  /** A match that starts after a shape starts only after that shape has ended. */
  lemma MatchAfterShape(s: string, cut: nat, i: nat, j: nat)
    requires ShapeAt(s, i) && MatchAt(s, cut, j) && i < j && cut < j
    ensures i + 11 <= j
  {
    if j < i + 11 {
      ShapesOverlap(s, i, j);
    }
  }

  /** True occurrences are at least twelve characters apart. */
  lemma OccurrencesDisjoint(s: string, i: nat, j: nat)
    requires SsnAt(s, i) && SsnAt(s, j) && i < j
    ensures i + 12 <= j
  {
    MatchAfterShape(s, 0, i, j);
  }

  lemma {:induction false} FindFromOrdered(s: string, p: nat)
    requires p <= |s|
    ensures Ordered(|s|, FindFrom(s, p), p)
    decreases |s| - p
  {
    if p == |s| {
    } else {
      FindFromOrdered(s, if SsnAt(s, p) then p + 11 else p + 1);
    }
  }

  /** The scan reports exactly the true occurrences from `p` on. */
  lemma {:induction false} FindFromExact(s: string, p: nat, m: Span)
    requires p <= |s|
    ensures m in FindFrom(s, p) <==> p <= m.start && m.end == m.start + 11 && SsnAt(s, m.start)
    decreases |s| - p
  {
    if p == |s| {
    } else if SsnAt(s, p) {
      FindFromExact(s, p + 11, m);
      if p < m.start && SsnAt(s, m.start) {
        OccurrencesDisjoint(s, p, m.start);
      }
    } else {
      FindFromExact(s, p + 1, m);
    }
  }

  lemma FillNow(text: string, spans: seq<Span>, p: nat)
    requires Ordered(|text|, spans, p + 11)
    ensures Ordered(|text|, [Span(p, p + 11)] + spans, p)
    ensures Fill(text, [Span(p, p + 11)] + spans, SSN_PLACEHOLDER, p)
         == SSN_PLACEHOLDER + Fill(text, spans, SSN_PLACEHOLDER, p + 11)
  {
    var all := [Span(p, p + 11)] + spans;
    assert all[1..] == spans;
    OrderedInside(|text|, all, p);
    assert text[p..p] + SSN_PLACEHOLDER == SSN_PLACEHOLDER;
  }

  /** Replacing the reported spans is the character-by-character pass. */
  lemma {:induction false} FillIsRedact(s: string, p: nat)
    requires p <= |s|
    ensures Ordered(|s|, FindFrom(s, p), p)
    ensures Fill(s, FindFrom(s, p), SSN_PLACEHOLDER, p) == RedactFrom(s, 0, p)
    decreases |s| - p
  {
    FindFromOrdered(s, p);
    if p == |s| {
    } else if SsnAt(s, p) {
      FillIsRedact(s, p + 11);
      FillNow(s, FindFrom(s, p + 11), p);
    } else {
      FillIsRedact(s, p + 1);
      FillFrom(s, FindFrom(s, p + 1), SSN_PLACEHOLDER, p, p + 1);
    }
  }

  /** Text before the cut passes through, and what follows it is redacted on its own. */
  lemma {:induction false} RedactSuffix(sent: string, s: string, p: nat)
    requires p <= |s|
    ensures RedactFrom(sent + s, |sent|, |sent| + p) == RedactFrom(s, 0, p)
    decreases |s| - p
  {
    var t := sent + s;
    if p == |s| {
    } else {
      assert forall k :: 0 <= k < |s| ==> t[|sent| + k] == s[k];
      assert MatchAt(t, |sent|, |sent| + p) <==> MatchAt(s, 0, p);
      RedactSuffix(sent, s, if MatchAt(s, 0, p) then p + 11 else p + 1);
    }
  }

  lemma {:induction false} RedactPrefix(t: string, cut: nat, p: nat)
    requires p <= cut <= |t|
    ensures RedactFrom(t, cut, p) == t[p..cut] + RedactFrom(t, cut, cut)
    decreases cut - p
  {
    if p < cut {
      RedactPrefix(t, cut, p + 1);
      assert !MatchAt(t, cut, p);
      assert t[p..cut] == [t[p]] + t[p+1..cut];
      assert RedactFrom(t, cut, p) == [t[p]] + RedactFrom(t, cut, p + 1);
    } else {
      assert t[p..cut] == "";
    }
  }

  lemma RedactAfterCut(sent: string, s: string)
    ensures RedactFrom(sent + s, |sent|, 0) == sent + RedactFrom(s, 0, 0)
  {
    RedactPrefix(sent + s, |sent|, 0);
    RedactSuffix(sent, s, 0);
    assert (sent + s)[0..|sent|] == sent;
  }
}
