/** The SSN rule over a stream: what the client has been sent, for every way the
    provider's text can be cut into chunks. */
module SsnStream {
  import opened CharClass
  import opened Splice
  import opened Ssn
  import opened Marked
  import opened OutputGuard
  import opened Texts

  /** Text already sent and text held back. */
  datatype StreamState = StreamState(sent: string, carry: string)

  ghost function StreamNext(rules: seq<Rule>, st: StreamState, token: string): StreamState
    requires AreRegexes(rules)
  {
    var redacted := Redacted(rules, st.carry + token);
    StreamState(st.sent + Safe(redacted), Held(redacted))
  }

  /** The carry loop over the tokens of a stream. */
  ghost function StreamOver(rules: seq<Rule>, tokens: seq<string>): StreamState
    requires AreRegexes(rules)
  {
    if tokens == [] then StreamState("", "")
    else StreamNext(rules, StreamOver(rules, tokens[..|tokens|-1]), tokens[|tokens|-1])
  }

  /** The final flush redacts the carry together with the text of the done chunk. */
  ghost function Flush(rules: seq<Rule>, st: StreamState, last: string): string
    requires AreRegexes(rules)
  {
    var tail := st.carry + last;
    st.sent + if tail == "" then "" else Redacted(rules, tail)
  }

  ghost function StreamText(rules: seq<Rule>, tokens: seq<string>, last: string): string
    requires AreRegexes(rules)
  {
    Flush(rules, StreamOver(rules, tokens), last)
  }

  // ----- one pass, on marked texts -----

  /** The marks are what the pass over `r` has in front of it at `p`. */
  ghost predicate Aligned(m: Marks, r: string, p: nat) {
    p <= |r| && Render(m) == r[p..]
  }

  /** The eleven characters of a match. */
  ghost function Matched(r: string, cut: nat, p: nat): (t: SsnText)
    requires MatchAt(r, cut, p)
    ensures t == r[p..p+11] && SsnChars(t)
  {
    var t := r[p..p+11];
    assert forall j :: 0 <= j < 11 ==> t[j] == r[p + j];
    t
  }

  /** Marks, in `m`, the matches of one pass over `r[cut..]`, scanning from `p`. */
  ghost function Hide(m: Marks, r: string, cut: nat, p: nat): Marks {
    match m
    case End => End
    case Mark(it, rest) =>
      if MatchAt(r, cut, p)
      then Mark(Hidden(Matched(r, cut, p)), Hide(Drop(rest, 10), r, cut, p + 11))
      else Mark(it, Hide(rest, r, cut, p + |RenderOf(it)|))
  }

  /** A match lies on eleven shown items. */
  lemma ShownUnderMatch(m: Marks, r: string, cut: nat, p: nat)
    requires Aligned(m, r, p) && MatchAt(r, cut, p)
    ensures m.Mark? && m == Plus(ShowAll(Matched(r, cut, p)), Drop(m.tail, 10))
    ensures Source(m) == Matched(r, cut, p) + Source(Drop(m.tail, 10))
    ensures Aligned(Drop(m.tail, 10), r, p + 11)
  {
    SplitAgain(r, p, p + 11);
    LeadingShown(m, Matched(r, cut, p), r[p+11..]);
    assert Drop(m, 11) == Drop(m.tail, 10);
  }

  lemma PlaceholderUnmatched(r: string, cut: nat, p: nat)
    requires p + |SSN_PLACEHOLDER| <= |r| && r[p..p+|SSN_PLACEHOLDER|] == SSN_PLACEHOLDER
    ensures forall k :: p <= k < p + |SSN_PLACEHOLDER| ==> !MatchAt(r, cut, k)
  {
    var t := r[p..p+|SSN_PLACEHOLDER|];
    forall k | p <= k < p + |SSN_PLACEHOLDER| ensures !MatchAt(r, cut, k) {
      assert r[k] == t[k - p] == SSN_PLACEHOLDER[k - p];
    }
  }

  /** No match starts inside an item that is passed over. */
  lemma PassOver(m: Marks, r: string, cut: nat, p: nat)
    requires m.Mark? && Aligned(m, r, p) && !MatchAt(r, cut, p)
    ensures Aligned(m.tail, r, p + |RenderOf(m.head)|)
    ensures RedactFrom(r, cut, p) == RenderOf(m.head) + RedactFrom(r, cut, p + |RenderOf(m.head)|)
  {
    HeadOf(m, r, p);
    if m.head.Hidden? { PlaceholderUnmatched(r, cut, p); }
    NoMatches(r, cut, p, p + |RenderOf(m.head)|);
  }

  lemma HeadOf(m: Marks, r: string, p: nat)
    requires m.Mark? && Aligned(m, r, p)
    ensures Aligned(m.tail, r, p + |RenderOf(m.head)|)
    ensures r[p..p + |RenderOf(m.head)|] == RenderOf(m.head)
  {
    var ph := RenderOf(m.head);
    SliceAppend(ph, Render(m.tail), |ph|);
    SplitAgain(r, p, p + |ph|);
    assert r[p..][..|ph|] == ph;
  }

  /** Marking is the redaction pass, and leaves the source alone. */
  lemma {:induction false} HideIsRedact(m: Marks, r: string, cut: nat, p: nat)
    requires Aligned(m, r, p)
    ensures Source(Hide(m, r, cut, p)) == Source(m)
    ensures Render(Hide(m, r, cut, p)) == RedactFrom(r, cut, p)
  {
    if m.End? {
      assert p == |r|;
    } else if MatchAt(r, cut, p) {
      ShownUnderMatch(m, r, cut, p);
      HideIsRedact(Drop(m.tail, 10), r, cut, p + 11);
    } else {
      PassOver(m, r, cut, p);
      HideIsRedact(m.tail, r, cut, p + |RenderOf(m.head)|);
    }
  }

  lemma {:induction false} NoMatches(r: string, cut: nat, p: nat, q: nat)
    requires p <= q <= |r|
    requires forall k :: p <= k < q ==> !MatchAt(r, cut, k)
    ensures RedactFrom(r, cut, p) == r[p..q] + RedactFrom(r, cut, q)
    decreases q - p
  {
    if p < q {
      NoMatches(r, cut, p + 1, q);
      assert r[p..q] == [r[p]] + r[p+1..q];
      Assoc([r[p]], r[p+1..q], RedactFrom(r, cut, q));
    } else {
      assert r[p..q] == "";
    }
  }

  /** What was hidden stays hidden. */
  lemma {:induction false} HideKeeps(m: Marks, r: string, cut: nat, p: nat, i: nat)
    requires Aligned(m, r, p) && HiddenAt(m, i)
    ensures HiddenAt(Hide(m, r, cut, p), i)
    decreases m, 1
  {
    if MatchAt(r, cut, p) {
      KeepsBeyondMatch(m, r, cut, p, i);
    } else if i > 0 {
      KeepsFurtherOn(m, r, cut, p, i);
    }
  }

  lemma {:induction false} KeepsBeyondMatch(m: Marks, r: string, cut: nat, p: nat, i: nat)
    requires Aligned(m, r, p) && HiddenAt(m, i)
    ensures MatchAt(r, cut, p) ==> HiddenAt(Hide(m, r, cut, p), i)
    decreases m, 0
  {
    BeyondMatch(m, r, cut, p, i);
    if MatchAt(r, cut, p) {
      HideKeeps(Drop(m.tail, 10), r, cut, p + 11, i - 11);
      HideMatch(m, r, cut, p, i);
    }
  }

  lemma {:induction false} KeepsFurtherOn(m: Marks, r: string, cut: nat, p: nat, i: nat)
    requires Aligned(m, r, p) && HiddenAt(m, i) && i > 0 && !MatchAt(r, cut, p)
    ensures HiddenAt(Hide(m, r, cut, p), i)
    decreases m, 0
  {
    HiddenBehindHead(m, i);
    PassOver(m, r, cut, p);
    HideKeeps(m.tail, r, cut, p + |RenderOf(m.head)|, i - |SourceOf(m.head)|);
    HidePass(m, r, cut, p, i);
  }

  lemma HiddenBehindHead(m: Marks, i: nat)
    requires HiddenAt(m, i) && i > 0
    ensures m.Mark? && |SourceOf(m.head)| <= i && HiddenAt(m.tail, i - |SourceOf(m.head)|)
  {
  }

  /** Nothing under a match was hidden before. */
  lemma BeyondMatch(m: Marks, r: string, cut: nat, p: nat, i: nat)
    requires Aligned(m, r, p) && HiddenAt(m, i)
    ensures MatchAt(r, cut, p) ==> Aligned(Drop(m.tail, 10), r, p + 11)
    ensures MatchAt(r, cut, p) ==> 11 <= i && HiddenAt(Drop(m.tail, 10), i - 11)
  {
    if MatchAt(r, cut, p) {
      ShownUnderMatch(m, r, cut, p);
      SkipShown(Matched(r, cut, p), Drop(m.tail, 10), i);
    }
  }

  lemma SkipShown(t: string, m: Marks, i: nat)
    requires HiddenAt(Plus(ShowAll(t), m), i)
    ensures |t| <= i && HiddenAt(m, i - |t|)
  {
    HiddenAppend(ShowAll(t), m, i);
    ShownHidesNothing(t, i);
    Shows(t);
  }

  /** Every match of the pass ends up hidden: here the match `at`, on the items after `a`. */
  lemma {:induction false} HideGains(a: Marks, b: Marks, r: string, cut: nat, p: nat, at: nat)
    requires Aligned(Plus(a, b), r, p)
    requires at == p + |Render(a)| && MatchAt(r, cut, at)
    ensures HiddenAt(Hide(Plus(a, b), r, cut, p), |Source(a)|)
  {
    var m := Plus(a, b);
    if a.End? {
      ShownUnderMatch(m, r, cut, p);
    } else if MatchAt(r, cut, p) {
      MatchBeyond(a, b, r, cut, p, at);
      HideGains(Drop(a, 11), b, r, cut, p + 11, at);
      HideMatch(m, r, cut, p, |Source(a)|);
    } else {
      PassOver(m, r, cut, p);
      HideGains(a.tail, b, r, cut, p + |RenderOf(a.head)|, at);
      HidePass(m, r, cut, p, |Source(a)|);
    }
  }

  /** Hidden items of one step of the scan: at a match ... */
  lemma HideMatch(m: Marks, r: string, cut: nat, p: nat, i: nat)
    requires m.Mark? && 11 <= i && HiddenAt(Hide(Drop(m.tail, 10), r, cut, p + 11), i - 11)
    ensures MatchAt(r, cut, p) ==> HiddenAt(Hide(m, r, cut, p), i)
  {
  }

  /** ... and anywhere else. */
  lemma HidePass(m: Marks, r: string, cut: nat, p: nat, i: nat)
    requires m.Mark? && !MatchAt(r, cut, p) && |SourceOf(m.head)| <= i
    requires HiddenAt(Hide(m.tail, r, cut, p + |RenderOf(m.head)|), i - |SourceOf(m.head)|)
    ensures HiddenAt(Hide(m, r, cut, p), i)
  {
    assert SourceOf(m.head) != "";
  }

  /** The next match begins beyond the eleven items under the first. */
  lemma MatchBeyond(a: Marks, b: Marks, r: string, cut: nat, p: nat, at: nat)
    requires Aligned(Plus(a, b), r, p)
    requires a.Mark? && at == p + |Render(a)| && MatchAt(r, cut, p) && MatchAt(r, cut, at)
    ensures a == Plus(ShowAll(Matched(r, cut, p)), Drop(a, 11)) && Drop(a, 11) < a
    ensures Aligned(Plus(Drop(a, 11), b), r, p + 11)
    ensures Drop(Plus(a, b).tail, 10) == Plus(Drop(a, 11), b)
    ensures |Source(a)| == 11 + |Source(Drop(a, 11))|
    ensures |Render(a)| == 11 + |Render(Drop(a, 11))|
  {
    assert RenderOf(a.head) != "";
    MatchAfterShape(r, cut, p, at);
    MatchWithin(a, b, r, cut, p);
  }

  /** A match that ends within `a`. */
  lemma MatchWithin(a: Marks, b: Marks, r: string, cut: nat, p: nat)
    requires Aligned(Plus(a, b), r, p)
    requires a.Mark? && MatchAt(r, cut, p) && 11 <= |Render(a)|
    ensures a == Plus(ShowAll(Matched(r, cut, p)), Drop(a, 11)) && Drop(a, 11) < a
    ensures Aligned(Plus(Drop(a, 11), b), r, p + 11)
    ensures Drop(Plus(a, b).tail, 10) == Plus(Drop(a, 11), b)
    ensures |Source(a)| == 11 + |Source(Drop(a, 11))|
    ensures |Render(a)| == 11 + |Render(Drop(a, 11))|
  {
    var t := Matched(r, cut, p);
    ShownUnderMatch(Plus(a, b), r, cut, p);
    AppendRender(a, b);
    FrontOf(r, p, Render(a), Render(b));
    LeadingShown(a, t, Render(a)[11..]);
    PlusAssoc(ShowAll(t), Drop(a, 11), b);
    DropShown(t, Plus(Drop(a, 11), b));
    assert Drop(Plus(a, b), 11) == Drop(Plus(a, b).tail, 10);
    assert Drop(a, 11) == Drop(a.tail, 10);
  }

  lemma FrontOf(r: string, p: nat, x: string, y: string)
    requires p <= |r| && r[p..] == x + y && 11 <= |x|
    ensures x == r[p..p+11] + x[11..]
  {
    assert r[p..p+11] == r[p..][..11];
    SliceAppend(x, y, 11);
  }

  // ----- one chunk -----

  /** Every true occurrence of `full` that lies in the first `n` characters is hidden. */
  ghost predicate AllHidden(full: string, n: nat, m: Marks) {
    forall i: nat :: SsnAt(full, i) && i + 11 <= n ==> HiddenAt(m, i)
  }

  /** The carry holds the last thirty characters of what was rendered, or all of it. */
  ghost predicate Carries(m: Marks, sent: string, carry: string) {
    && Render(m) == sent + carry
    && (sent == "" || CARRY_SIZE <= |carry|)
  }

  /** The marks explain `part`, the consumed front of the provider's text. */
  ghost predicate Tracks(full: string, part: string, m: Marks, st: StreamState) {
    && part <= full
    && Source(m) == part
    && Carries(m, st.sent, st.carry)
    && AllHidden(full, |part|, m)
  }

  lemma Extended(m: Marks, token: string)
    ensures var all := Plus(m, ShowAll(token));
            Source(all) == Source(m) + token && Render(all) == Render(m) + token
  {
    Shows(token);
    AppendSource(m, ShowAll(token));
    AppendRender(m, ShowAll(token));
  }

  /** Hidden items lie in the text consumed before the chunk. */
  lemma OldHidden(m: Marks, token: string, k: nat)
    requires HiddenAt(Plus(m, ShowAll(token)), k)
    ensures HiddenAt(m, k) && k + 11 <= |Source(m)|
  {
    HiddenAppend(m, ShowAll(token), k);
    if |Source(m)| <= k {
      ShownHidesNothing(token, k - |Source(m)|);
    }
    HiddenIsShape(m, k);
  }

  /** A true occurrence that the chunk completes is matched by the pass over carry and chunk. */
  lemma CompletedIsMatched(m: Marks, sent: string, carry: string, token: string, s: string, i: nat)
    returns (a: Marks, b: Marks)
    requires Carries(m, sent, carry) && Source(Plus(m, ShowAll(token))) == s
    requires InContext(s, i) && |Source(m)| < i + 11
    ensures Plus(m, ShowAll(token)) == Plus(a, b) && |Source(a)| == i
    ensures MatchAt(Render(Plus(m, ShowAll(token))), |sent|, |Render(a)|)
  {
    forall k: nat | HiddenAt(Plus(m, ShowAll(token)), k) ensures k < i {
      OldHidden(m, token, k);
    }
    a, b := Locate(Plus(m, ShowAll(token)), i);
    MatchedHere(m, sent, carry, token, a, b, s, i);
  }

  lemma MatchedHere(m: Marks, sent: string, carry: string, token: string, a: Marks, b: Marks, s: string, i: nat)
    requires Plus(m, ShowAll(token)) == Plus(a, b) && Source(Plus(a, b)) == s
    requires |Source(a)| == i <= |s| && b == ShowAll(s[i..])
    requires |Source(m)| < i + 11
    requires InContext(s, i) && Carries(m, sent, carry)
    ensures MatchAt(Render(Plus(a, b)), |sent|, |Render(a)|)
  {
    WithinCarry(m, sent, carry, token, a, b, s, i);
    RunOfShown(a, b, s, i);
    LeftContext(a, b, s, i);
  }

  /** An SSN shape that nothing in `s` contradicts being an occurrence. */
  predicate InContext(s: string, i: nat) {
    && ShapeAt(s, i)
    && (i == 0 || !IsWord(s[i-1]))
    && (i + 11 < |s| ==> !IsWord(s[i+11]))
  }

  lemma SsnInPrefix(full: string, part: string, i: nat)
    requires SsnAt(full, i) && part <= full && i + 11 <= |part|
    ensures InContext(part, i)
  {
    assert forall k :: 0 <= k < |part| ==> part[k] == full[k];
  }

  /** Shown items put their own text, unchanged, into the rendering. */
  lemma RunOfShown(a: Marks, b: Marks, s: string, i: nat)
    requires Source(Plus(a, b)) == s && |Source(a)| == i <= |s| && b == ShowAll(s[i..])
    ensures var r, at := Render(Plus(a, b)), |Render(a)|;
            && |r| == at + |s| - i
            && (ShapeAt(s, i) ==> ShapeAt(r, at))
            && (i + 11 < |s| ==> r[at+11] == s[i+11])
  {
    AppendRender(a, b);
    AppendSource(a, b);
    Shows(s[i..]);
    SameTail(Render(a), Source(a), s[i..]);
  }

  /** A text looks the same from its tail on, whatever stands in front. */
  lemma SameTail(x: string, y: string, tail: string)
    ensures ShapeAt(x + tail, |x|) <==> ShapeAt(y + tail, |y|)
    ensures 11 < |tail| ==> (x + tail)[|x| + 11] == (y + tail)[|y| + 11]
  {
    ShapeShift(x, tail, 0);
    ShapeShift(y, tail, 0);
  }

  /** In front of the occurrence the rendering has the same character, or a placeholder's bracket. */
  lemma LeftContext(a: Marks, b: Marks, s: string, i: nat)
    requires i <= |s| && Source(Plus(a, b)) == s && |Source(a)| == i
    requires i == 0 || !IsWord(s[i-1])
    ensures var r, at := Render(Plus(a, b)), |Render(a)|;
            at <= |r| && (at == 0 || !IsWord(r[at-1]))
  {
    AppendRender(a, b);
    AppendSource(a, b);
    if a.Mark? {
      LastChars(a);
      assert s[i-1] == Last(Source(a));
      assert Render(Plus(a, b))[|Render(a)|-1] == Last(Render(a));
    }
  }

  /** An unfinished occurrence is shorter than the carry: what has been sent ends before it. */
  lemma WithinCarry(m: Marks, sent: string, carry: string, token: string, a: Marks, b: Marks, s: string, i: nat)
    requires Carries(m, sent, carry)
    requires Plus(m, ShowAll(token)) == Plus(a, b) && Source(Plus(a, b)) == s
    requires i <= |s| && |Source(a)| == i && b == ShowAll(s[i..])
    requires |Source(m)| < i + 11
    ensures sent <= Render(a)
    ensures sent != "" ==> |sent| + CARRY_SIZE - 10 <= |Render(a)|
  {
    AppendSource(m, ShowAll(token));
    AppendRender(m, ShowAll(token));
    AppendRender(a, b);
    Shows(token);
    Shows(s[i..]);
    Assoc(sent, carry, token);
    PeelFront(sent, carry + token, Render(a), s[i..]);
  }

  /** After the pass over carry and chunk every occurrence of the consumed text is hidden. */
  lemma ChunkHides(m: Marks, sent: string, carry: string, token: string, s: string, i: nat)
    requires Carries(m, sent, carry) && Source(Plus(m, ShowAll(token))) == s
    requires Render(Plus(m, ShowAll(token))) == sent + (carry + token)
    requires InContext(s, i) && (i + 11 <= |Source(m)| ==> HiddenAt(m, i))
    ensures HiddenAt(Hide(Plus(m, ShowAll(token)), sent + (carry + token), |sent|, 0), i)
  {
    var all := Plus(m, ShowAll(token));
    assert Aligned(all, Render(all), 0);
    if i + 11 <= |Source(m)| {
      HiddenAppend(m, ShowAll(token), i);
      HideKeeps(all, Render(all), |sent|, 0, i);
    } else {
      var a, b := CompletedIsMatched(m, sent, carry, token, s, i);
      HideGains(a, b, Render(all), |sent|, 0, |Render(a)|);
    }
  }

  lemma ChunkHidesAll(full: string, part: string, m: Marks, sent: string, carry: string, token: string)
    requires part + token <= full && Carries(m, sent, carry) && Source(m) == part
    requires Source(Plus(m, ShowAll(token))) == part + token
    requires Render(Plus(m, ShowAll(token))) == sent + (carry + token)
    requires AllHidden(full, |part|, m)
    ensures AllHidden(full, |part + token|, Hide(Plus(m, ShowAll(token)), sent + (carry + token), |sent|, 0))
  {
    forall i: nat | SsnAt(full, i) && i + 11 <= |part + token|
      ensures HiddenAt(Hide(Plus(m, ShowAll(token)), sent + (carry + token), |sent|, 0), i)
    {
      SsnInPrefix(full, part + token, i);
      ChunkHides(m, sent, carry, token, part + token, i);
    }
  }

  /** One chunk: the marks of everything consumed so far, after the pass over carry and chunk. */
  lemma ChunkStep(full: string, part: string, m: Marks, st: StreamState, token: string) returns (out: Marks)
    requires Tracks(full, part, m, st) && part + token <= full
    ensures Source(out) == part + token
    ensures Render(out) == st.sent + RedactFrom(st.carry + token, 0, 0)
    ensures AllHidden(full, |part + token|, out)
    ensures out == Hide(Plus(m, ShowAll(token)), st.sent + (st.carry + token), |st.sent|, 0)
  {
    var all, r := Plus(m, ShowAll(token)), st.sent + (st.carry + token);
    Extended(m, token);
    Assoc(st.sent, st.carry, token);
    ChunkHidesAll(full, part, m, st.sent, st.carry, token);
    out := Hide(all, r, |st.sent|, 0);
    assert r[0..] == r;
    HideIsRedact(all, r, |st.sent|, 0);
    RedactAfterCut(st.sent, st.carry + token);
  }

  // ----- the whole stream -----

  /** What is sent and what is kept are the redacted text, cut in two. */
  lemma NextState(st: StreamState, redacted: string)
    ensures (st.sent + Safe(redacted)) + Held(redacted) == st.sent + redacted
  {
    Assoc(st.sent, Safe(redacted), Held(redacted));
    assert Safe(redacted) + Held(redacted) == redacted;
  }

  lemma {:induction false} RedactNotShorter(s: string, cut: nat, p: nat)
    requires p <= |s|
    ensures |RedactFrom(s, cut, p)| >= |s| - p
    decreases |s| - p
  {
    if p == |s| {
    } else {
      RedactNotShorter(s, cut, if MatchAt(s, cut, p) then p + 11 else p + 1);
    }
  }

  /** The marks explain the text of the tokens. */
  ghost predicate TracksTokens(full: string, tokens: seq<string>, m: Marks)
    requires AreRegexes(SsnOnly())
  {
    Tracks(full, Concat(tokens), m, StreamOver(SsnOnly(), tokens))
  }

  /** After any number of chunks the marks explain the text consumed so far. */
  lemma {:induction false} StreamTracks(full: string, tokens: seq<string>) returns (m: Marks)
    requires AreRegexes(SsnOnly()) && Concat(tokens) <= full
    ensures TracksTokens(full, tokens, m)
  {
    if tokens == [] {
      m := End;
    } else {
      var init, token := tokens[..|tokens|-1], tokens[|tokens|-1];
      PrefixSplit(Concat(init), token, full);
      m := StreamTracks(full, init);
      m := NextTracks(full, Concat(init), m, StreamOver(SsnOnly(), init), token);
    }
  }

  lemma NextTracks(full: string, part: string, m: Marks, st: StreamState, token: string) returns (out: Marks)
    requires AreRegexes(SsnOnly())
    requires Tracks(full, part, m, st) && part + token <= full
    ensures Tracks(full, part + token, out, StreamNext(SsnOnly(), st, token))
  {
    out := ChunkStep(full, part, m, st, token);
    CarryNext(out, st, token);
  }

  lemma CarryNext(m: Marks, st: StreamState, token: string)
    requires AreRegexes(SsnOnly())
    requires st.sent == "" || CARRY_SIZE <= |st.carry|
    requires Render(m) == st.sent + RedactFrom(st.carry + token, 0, 0)
    ensures var next := StreamNext(SsnOnly(), st, token); Carries(m, next.sent, next.carry)
  {
    SsnRulePass(st.carry + token);
    var redacted := RedactFrom(st.carry + token, 0, 0);
    NextState(st, redacted);
    RedactNotShorter(st.carry + token, 0, 0);
  }

  /** The hidden spans of `m` are SSN shapes, and every true occurrence is one of them. */
  ghost predicate Redacts(full: string, spans: seq<Span>) {
    && Ordered(|full|, spans, 0)
    && (forall s :: s in spans ==> s.end == s.start + 11 && ShapeAt(full, s.start))
    && (forall i: nat :: SsnAt(full, i) ==> Span(i, i + 11) in spans)
  }

  lemma SpansRedact(full: string, m: Marks)
    requires Source(m) == full && AllHidden(full, |full|, m)
    ensures Redacts(full, HiddenSpans(m, 0))
    ensures Fill(full, HiddenSpans(m, 0), SSN_PLACEHOLDER, 0) == Render(m)
  {
    var spans := HiddenSpans(m, 0);
    assert full[0..] == full;
    RenderIsFill(full, m, 0);
    forall s | s in spans ensures s.end == s.start + 11 && ShapeAt(full, s.start) {
      SpansAreHidden(m, 0, s);
      HiddenIsShape(m, s.start);
    }
    forall i: nat | SsnAt(full, i) ensures Span(i, i + 11) in spans {
      SpansAreHidden(m, 0, Span(i, i + 11));
    }
  }

  /** The marks of a whole stream. */
  lemma StreamMarks(full: string, tokens: seq<string>, last: string) returns (m: Marks)
    requires AreRegexes(SsnOnly()) && full == Concat(tokens) + last
    ensures Source(m) == full && AllHidden(full, |full|, m)
    ensures Render(m) == StreamText(SsnOnly(), tokens, last)
  {
    PrefixSplit(Concat(tokens), last, full);
    var before := StreamTracks(full, tokens);
    m := ChunkStep(full, Concat(tokens), before, StreamOver(SsnOnly(), tokens), last);
    FlushIsPass(tokens, last);
  }

  /** The client is sent the provider's text with disjoint SSN-shaped spans replaced,
      and every true SSN occurrence is among them, however the text was cut into chunks. */
  lemma StreamedText(tokens: seq<string>, last: string) returns (spans: seq<Span>)
    ensures AreRegexes(SsnOnly())
    ensures Redacts(Concat(tokens) + last, spans)
    ensures StreamText(SsnOnly(), tokens, last) == Fill(Concat(tokens) + last, spans, SSN_PLACEHOLDER, 0)
  {
    SsnRuleIsRegex();
    var m := StreamMarks(Concat(tokens) + last, tokens, last);
    SpansRedact(Concat(tokens) + last, m);
    spans := HiddenSpans(m, 0);
  }

  lemma FlushIsPass(tokens: seq<string>, last: string)
    requires AreRegexes(SsnOnly())
    ensures var st := StreamOver(SsnOnly(), tokens);
            StreamText(SsnOnly(), tokens, last) == st.sent + RedactFrom(st.carry + last, 0, 0)
  {
    SsnRulePass(StreamOver(SsnOnly(), tokens).carry + last);
  }
}
