/** The generator `_event_stream` of `submit_stream`: provider chunks in, SSE frames and
    status writes out. */
module EventStream {
  import opened OutputGuard
  import opened SsnStream
  import opened Texts
  import opened Wrappers

  /** One chunk of the provider's iterator; `usage` is its prompt plus completion tokens. */
  datatype Chunk = Chunk(token: string, done: bool, usage: Option<nat>)

  /** The provider call fails or yields no iterator; or it yields chunks and then ends or raises. */
  datatype Provider = Unavailable | Iterator(chunks: seq<Chunk>, raises: bool)

  /** Which side effects raise: the three status writes, the usage and quota calls, the audit event. */
  datatype Faults = Faults(streamingWrite: bool, accounting: bool, audit: bool, completedWrite: bool, failedWrite: bool)

  /** `{token, done: false}`, the metadata frame `{token: "", done: true}`, and `{error, done: true}`. */
  datatype Frame = TokenFrame(token: string) | DoneFrame(usage: Option<nat>) | ErrorFrame

  datatype Status = Received | Streaming | Completed | Failed

  predicate Terminal(f: Frame) { !f.TokenFrame? }

  function TerminalCount(frames: seq<Frame>): nat {
    if frames == [] then 0
    else TerminalCount(frames[..|frames|-1]) + if Terminal(frames[|frames|-1]) then 1 else 0
  }

  /** What the frames say, token by token. */
  function TokenText(frames: seq<Frame>): string {
    if frames == [] then ""
    else TokenText(frames[..|frames|-1]) +
         if Terminal(frames[|frames|-1]) then "" else frames[|frames|-1].token
  }

  function FirstDone(chunks: seq<Chunk>): (k: nat)
    ensures k <= |chunks|
    ensures k < |chunks| ==> chunks[k].done
    ensures forall j :: 0 <= j < k ==> !chunks[j].done
  {
    if chunks == [] then 0 else if chunks[0].done then 0 else 1 + FirstDone(chunks[1..])
  }

  /** The texts that enter the carry loop. */
  function Tokens(chunks: seq<Chunk>): seq<string> {
    if chunks == [] then []
    else
      var c := chunks[|chunks|-1];
      Tokens(chunks[..|chunks|-1]) + if c.token != "" && !c.done then [c.token] else []
  }

  function StreamedTokens(provider: Provider): seq<string> {
    if provider.Unavailable? then [] else Tokens(provider.chunks[..FirstDone(provider.chunks)])
  }

  /** The provider says it is finished, or fails visibly. */
  predicate Concludes(provider: Provider) {
    provider.Unavailable? || provider.raises || FirstDone(provider.chunks) < |provider.chunks|
  }

  /** The text left for the final flush. */
  ghost function FinalText(rules: seq<Rule>, provider: Provider): string
    requires AreRegexes(rules)
    requires provider.Iterator? && FirstDone(provider.chunks) < |provider.chunks|
  {
    StreamOver(rules, StreamedTokens(provider)).carry + provider.chunks[FirstDone(provider.chunks)].token
  }

  /** The run reaches its metadata frame. */
  ghost predicate ReachesDone(rules: seq<Rule>, provider: Provider, faults: Faults)
    requires AreRegexes(rules)
  {
    && provider.Iterator?
    && FirstDone(provider.chunks) < |provider.chunks|
    && (StreamedTokens(provider) == [] || !faults.streamingWrite)
    && !faults.accounting
    && (faults.audit ==> var final := FinalText(rules, provider);
                         final == "" || RedactAll(rules, final).redactionCount == 0)
  }

  lemma AppendFrame(frames: seq<Frame>, f: Frame)
    ensures TokenText(frames + [f]) == TokenText(frames) + if Terminal(f) then "" else f.token
    ensures TerminalCount(frames + [f]) == TerminalCount(frames) + if Terminal(f) then 1 else 0
  {
    assert (frames + [f])[..|frames|] == frames;
  }

  /** A chunk's emitted part and carry are determined by their sum and their sizes. */
  lemma CutDetermined(safe: string, carry: string, redacted: string)
    requires safe + carry == redacted && |carry| <= CARRY_SIZE && (safe != "" ==> |carry| == CARRY_SIZE)
    ensures safe == Safe(redacted) && carry == Held(redacted)
  {
    assert |redacted| == |safe| + |carry|;
    assert safe == redacted[..|safe|] && carry == redacted[|safe|..];
  }

  lemma NextToken(chunks: seq<Chunk>, i: nat)
    requires i < |chunks|
    ensures Tokens(chunks[..i+1])
         == Tokens(chunks[..i]) + if chunks[i].token != "" && !chunks[i].done then [chunks[i].token] else []
  {
    assert chunks[..i+1][..i] == chunks[..i];
  }

  lemma NextStream(rules: seq<Rule>, tokens: seq<string>, token: string)
    requires AreRegexes(rules)
    ensures StreamOver(rules, tokens + [token]) == StreamNext(rules, StreamOver(rules, tokens), token)
  {
    assert (tokens + [token])[..|tokens|] == tokens;
  }

  /** Frames of a run that has not concluded: the empty pulse, then non-empty token frames. */
  ghost predicate TokensOnly(frames: seq<Frame>, text: string) {
    && |frames| >= 1 && frames[0] == TokenFrame("")
    && (forall j :: 1 <= j < |frames| ==> frames[j].TokenFrame? && frames[j].token != "")
    && TerminalCount(frames) == 0
    && TokenText(frames) == text
  }

  lemma AppendToken(frames: seq<Frame>, text: string, token: string)
    requires TokensOnly(frames, text) && token != ""
    ensures TokensOnly(frames + [TokenFrame(token)], text + token)
  {
    AppendFrame(frames, TokenFrame(token));
  }

  lemma PulseOnly()
    ensures TokensOnly([TokenFrame("")], "")
  {
    AppendFrame([], TokenFrame(""));
    assert [] + [TokenFrame("")] == [TokenFrame("")];
  }

  lemma RedactedNotEmpty(rules: seq<Rule>, text: string)
    requires AreRegexes(rules) && text != ""
    ensures Redacted(rules, text) != ""
  {
    if rules != [] {
      var init, rule := rules[..|rules|-1], rules[|rules|-1];
      RedactedNotEmpty(init, text);
      RuleKeepsText(rule, Redacted(init, text));
    }
  }

  lemma RuleKeepsText(rule: Rule, text: string)
    requires IsRegex(rule) && text != ""
    ensures RedactRule(rule, text) != ""
  {
    AcceptedOrdered(rule, text, |text|, rule.find(text), 0);
  }

  /** What the carry loop releases for the last token. */
  ghost function ReleasedLast(rules: seq<Rule>, tokens: seq<string>): string
    requires AreRegexes(rules) && tokens != []
  {
    Safe(Redacted(rules, StreamOver(rules, tokens[..|tokens|-1]).carry + tokens[|tokens|-1]))
  }

  /** The pulse, and one frame for each token that releases text. */
  ghost function ReleasedFrames(rules: seq<Rule>, tokens: seq<string>): seq<Frame>
    requires AreRegexes(rules)
  {
    if tokens == [] then [TokenFrame("")]
    else
      var safe := ReleasedLast(rules, tokens);
      ReleasedFrames(rules, tokens[..|tokens|-1]) + if safe == "" then [] else [TokenFrame(safe)]
  }

  /** How many tokens release text. */
  ghost function ReleaseCount(rules: seq<Rule>, tokens: seq<string>): nat
    requires AreRegexes(rules)
  {
    if tokens == [] then 0
    else ReleaseCount(rules, tokens[..|tokens|-1]) + if ReleasedLast(rules, tokens) == "" then 0 else 1
  }

  /** The token frames of a run; the flush sends one more if there is text left. */
  ghost function RunBody(rules: seq<Rule>, provider: Provider, faults: Faults): seq<Frame>
    requires AreRegexes(rules)
  {
    if StreamingWriteRaises(provider, faults) then [TokenFrame("")]
    else
      ReleasedFrames(rules, StreamedTokens(provider)) +
      if ReachesDone(rules, provider, faults) && FinalText(rules, provider) != ""
      then [TokenFrame(Redacted(rules, FinalText(rules, provider)))]
      else []
  }

  /** The first token makes the run write its streaming status, and that write raises. */
  predicate StreamingWriteRaises(provider: Provider, faults: Faults) {
    faults.streamingWrite && StreamedTokens(provider) != []
  }

  /** The run sends the error frame or the metadata frame. */
  ghost predicate Finishes(provider: Provider, faults: Faults) {
    Concludes(provider) || StreamingWriteRaises(provider, faults)
  }

  /** The text of all token frames of a run. */
  ghost function DeliveredText(rules: seq<Rule>, provider: Provider, faults: Faults): string
    requires AreRegexes(rules)
  {
    if StreamingWriteRaises(provider, faults) then ""
    else if ReachesDone(rules, provider, faults) then
      StreamText(rules, StreamedTokens(provider), provider.chunks[FirstDone(provider.chunks)].token)
    else StreamOver(rules, StreamedTokens(provider)).sent
  }

  ghost function TerminalFrames(rules: seq<Rule>, provider: Provider, faults: Faults): seq<Frame>
    requires AreRegexes(rules)
  {
    if ReachesDone(rules, provider, faults) then
      [DoneFrame(provider.chunks[FirstDone(provider.chunks)].usage)] + if faults.completedWrite then [ErrorFrame] else []
    else if Finishes(provider, faults) then [ErrorFrame]
    else []
  }

  ghost function StatusTrace(rules: seq<Rule>, provider: Provider, faults: Faults): seq<Status>
    requires AreRegexes(rules)
  {
    (if StreamedTokens(provider) == [] || faults.streamingWrite then [Received] else [Received, Streaming]) +
    if ReachesDone(rules, provider, faults) && !faults.completedWrite then [Completed]
    else if Finishes(provider, faults) && !faults.failedWrite then [Failed]
    else []
  }

  /** What the chunk loop knows after `i` chunks, none of them done. */
  ghost predicate Running(rules: seq<Rule>, chunks: seq<Chunk>, i: nat, carry: string, firstToken: bool,
                          frames: seq<Frame>, statuses: seq<Status>)
    requires AreRegexes(rules)
  {
    && i <= FirstDone(chunks)
    && var tokens := Tokens(chunks[..i]);
    && carry == StreamOver(rules, tokens).carry
    && frames == ReleasedFrames(rules, tokens)
    && TokensOnly(frames, StreamOver(rules, tokens).sent)
    && (firstToken <==> tokens == [])
    && statuses == if tokens == [] then [Received] else [Received, Streaming]
  }

  /** The run has returned from inside the loop. */
  ghost predicate Concluded(rules: seq<Rule>, provider: Provider, faults: Faults, body: seq<Frame>,
                            frames: seq<Frame>, statuses: seq<Status>)
    requires AreRegexes(rules)
  {
    && body == RunBody(rules, provider, faults)
    && TokensOnly(body, DeliveredText(rules, provider, faults))
    && frames == body + TerminalFrames(rules, provider, faults)
    && statuses == StatusTrace(rules, provider, faults)
  }

  /** The frames and statuses of one run: a token frame for each token that releases text and for
      the flush, saying the delivered text together, then the terminal ones. */
  ghost predicate IsRun(rules: seq<Rule>, provider: Provider, faults: Faults, frames: seq<Frame>, statuses: seq<Status>)
    requires AreRegexes(rules)
  {
    Concluded(rules, provider, faults, RunBody(rules, provider, faults), frames, statuses)
  }

  /** Only what the `except` branch does is missing. */
  ghost predicate Interrupted(rules: seq<Rule>, provider: Provider, faults: Faults, body: seq<Frame>,
                              frames: seq<Frame>, statuses: seq<Status>)
    requires AreRegexes(rules)
  {
    Concluded(rules, provider, faults, body,
              frames + [ErrorFrame], statuses + if faults.failedWrite then [] else [Failed])
  }

  lemma DoneHere(chunks: seq<Chunk>, i: nat)
    requires i < |chunks| && chunks[i].done && i <= FirstDone(chunks)
    ensures i == FirstDone(chunks)
  {
  }

  lemma StartRunning(rules: seq<Rule>, chunks: seq<Chunk>)
    requires AreRegexes(rules)
    ensures Running(rules, chunks, 0, "", true, [TokenFrame("")], [Received])
  {
    PulseOnly();
    assert chunks[..0] == [];
  }

  lemma SkipChunk(rules: seq<Rule>, chunks: seq<Chunk>, i: nat, carry: string, firstToken: bool,
                  frames: seq<Frame>, statuses: seq<Status>)
    requires AreRegexes(rules) && i < |chunks| && !chunks[i].done && chunks[i].token == ""
    requires Running(rules, chunks, i, carry, firstToken, frames, statuses)
    ensures Running(rules, chunks, i + 1, carry, firstToken, frames, statuses)
  {
    NextToken(chunks, i);
    var tokens: seq<string> := Tokens(chunks[..i]);
    assert tokens + [] == tokens;
    assert Tokens(chunks[..i+1]) == tokens;
  }

  lemma TokenChunk(rules: seq<Rule>, chunks: seq<Chunk>, i: nat, carry: string, firstToken: bool,
                   frames: seq<Frame>, statuses: seq<Status>, safe: string, newCarry: string)
    requires AreRegexes(rules) && i < |chunks| && !chunks[i].done && chunks[i].token != ""
    requires Running(rules, chunks, i, carry, firstToken, frames, statuses)
    requires safe + newCarry == Redacted(rules, carry + chunks[i].token)
    requires |newCarry| <= CARRY_SIZE && (safe != "" ==> |newCarry| == CARRY_SIZE)
    ensures Running(rules, chunks, i + 1, newCarry, false,
                    if safe == "" then frames else frames + [TokenFrame(safe)],
                    if firstToken then statuses + [Streaming] else statuses)
  {
    TokenState(rules, chunks, i, carry, safe, newCarry);
    NextReleased(rules, Tokens(chunks[..i]), chunks[i].token);
    SafePart(frames, StreamOver(rules, Tokens(chunks[..i])).sent, safe);
  }

  /** The state of the carry loop after one more token. */
  lemma TokenState(rules: seq<Rule>, chunks: seq<Chunk>, i: nat, carry: string, safe: string, newCarry: string)
    requires AreRegexes(rules) && i < |chunks| && !chunks[i].done && chunks[i].token != ""
    requires carry == StreamOver(rules, Tokens(chunks[..i])).carry
    requires safe + newCarry == Redacted(rules, carry + chunks[i].token)
    requires |newCarry| <= CARRY_SIZE && (safe != "" ==> |newCarry| == CARRY_SIZE)
    ensures Tokens(chunks[..i+1]) == Tokens(chunks[..i]) + [chunks[i].token]
    ensures StreamOver(rules, Tokens(chunks[..i+1]))
         == StreamState(StreamOver(rules, Tokens(chunks[..i])).sent + safe, newCarry)
    ensures safe == Safe(Redacted(rules, carry + chunks[i].token))
  {
    NextToken(chunks, i);
    CutDetermined(safe, newCarry, Redacted(rules, carry + chunks[i].token));
    NextStream(rules, Tokens(chunks[..i]), chunks[i].token);
  }

  lemma NextReleased(rules: seq<Rule>, tokens: seq<string>, token: string)
    requires AreRegexes(rules)
    ensures var safe := Safe(Redacted(rules, StreamOver(rules, tokens).carry + token));
            && ReleasedFrames(rules, tokens + [token])
            == ReleasedFrames(rules, tokens) + (if safe == "" then [] else [TokenFrame(safe)])
            && ReleaseCount(rules, tokens + [token]) == ReleaseCount(rules, tokens) + if safe == "" then 0 else 1
  {
    assert (tokens + [token])[..|tokens|] == tokens;
  }

  lemma SafePart(frames: seq<Frame>, sent: string, safe: string)
    requires TokensOnly(frames, sent)
    ensures TokensOnly(if safe == "" then frames else frames + [TokenFrame(safe)], sent + safe)
  {
    if safe == "" {
      assert sent + safe == sent;
    } else {
      AppendToken(frames, sent, safe);
    }
  }

  /** The streaming write raised at the first token. */
  lemma FirstTokenRaises(rules: seq<Rule>, provider: Provider, faults: Faults, i: nat, carry: string,
                         frames: seq<Frame>, statuses: seq<Status>)
    requires AreRegexes(rules) && provider.Iterator? && i < |provider.chunks|
    requires !provider.chunks[i].done && provider.chunks[i].token != "" && faults.streamingWrite
    requires Running(rules, provider.chunks, i, carry, true, frames, statuses)
    ensures Interrupted(rules, provider, faults, frames, frames, statuses)
  {
    NextToken(provider.chunks, i);
    MoreTokens(provider.chunks, i + 1);
  }

  /** The iterator ran out before any done chunk. */
  lemma RanOut(rules: seq<Rule>, provider: Provider, faults: Faults, carry: string, firstToken: bool,
               frames: seq<Frame>, statuses: seq<Status>)
    requires AreRegexes(rules) && provider.Iterator? && !StreamingWriteRaises(provider, faults)
    requires Running(rules, provider.chunks, |provider.chunks|, carry, firstToken, frames, statuses)
    ensures if provider.raises then Interrupted(rules, provider, faults, frames, frames, statuses)
            else Concluded(rules, provider, faults, frames, frames, statuses)
  {
    assert FirstDone(provider.chunks) == |provider.chunks|;
    assert frames + [] == frames && statuses + [] == statuses;
  }

  /** An exception left the `if done:` branch before its metadata frame. */
  lemma DoneRaises(rules: seq<Rule>, provider: Provider, faults: Faults, carry: string,
                   frames: seq<Frame>, statuses: seq<Status>)
    requires AreRegexes(rules) && provider.Iterator? && !StreamingWriteRaises(provider, faults)
    requires FirstDone(provider.chunks) < |provider.chunks| && !ReachesDone(rules, provider, faults)
    requires Running(rules, provider.chunks, FirstDone(provider.chunks), carry, StreamedTokens(provider) == [], frames, statuses)
    ensures Interrupted(rules, provider, faults, frames, frames, statuses)
  {
  }

  /** The branch got as far as its metadata frame. */
  lemma DoneSent(rules: seq<Rule>, provider: Provider, faults: Faults, body: seq<Frame>, statuses: seq<Status>)
    requires AreRegexes(rules) && provider.Iterator? && ReachesDone(rules, provider, faults)
    requires body == RunBody(rules, provider, faults)
    requires TokensOnly(body, StreamText(rules, StreamedTokens(provider), provider.chunks[FirstDone(provider.chunks)].token))
    requires statuses == if StreamedTokens(provider) == [] then [Received] else [Received, Streaming]
    ensures var frames := body + [DoneFrame(provider.chunks[FirstDone(provider.chunks)].usage)];
            if faults.completedWrite then Interrupted(rules, provider, faults, body, frames, statuses)
            else Concluded(rules, provider, faults, body, frames, statuses + [Completed])
  {
    assert !StreamingWriteRaises(provider, faults);
    var done := [DoneFrame(provider.chunks[FirstDone(provider.chunks)].usage)];
    assert done + [] == done;
    assert (body + done) + [ErrorFrame] == body + (done + [ErrorFrame]);
  }

  /** The frames before the metadata frame. */
  lemma Flushed(rules: seq<Rule>, provider: Provider, faults: Faults, before: seq<Frame>, body: seq<Frame>)
    requires AreRegexes(rules) && ReachesDone(rules, provider, faults)
    requires before == ReleasedFrames(rules, StreamedTokens(provider))
    requires TokensOnly(before, StreamOver(rules, StreamedTokens(provider)).sent)
    requires body == if FinalText(rules, provider) == "" then before
                     else before + [TokenFrame(Redacted(rules, FinalText(rules, provider)))]
    ensures body == RunBody(rules, provider, faults)
    ensures TokensOnly(body, StreamText(rules, StreamedTokens(provider), provider.chunks[FirstDone(provider.chunks)].token))
  {
    assert !StreamingWriteRaises(provider, faults);
    NoneMore(before);
    FlushSays(rules, before, StreamOver(rules, StreamedTokens(provider)).sent, FinalText(rules, provider));
  }

  lemma FlushSays(rules: seq<Rule>, before: seq<Frame>, sent: string, final: string)
    requires AreRegexes(rules) && TokensOnly(before, sent)
    ensures TokensOnly(if final == "" then before else before + [TokenFrame(Redacted(rules, final))],
                       sent + if final == "" then "" else Redacted(rules, final))
  {
    if final == "" {
      assert sent + "" == sent;
    } else {
      RedactedNotEmpty(rules, final);
      AppendToken(before, sent, Redacted(rules, final));
    }
  }

  /** The `if done:` branch; `raised` says that an exception left it. */
  method FinishRun(rules: seq<Rule>, ghost provider: Provider, faults: Faults, chunk: Chunk, carry: string,
                   before: seq<Frame>, trace: seq<Status>)
    returns (frames: seq<Frame>, statuses: seq<Status>, raised: bool, ghost body: seq<Frame>)
    requires AreRegexes(rules) && provider.Iterator?
    requires FirstDone(provider.chunks) < |provider.chunks| && chunk == provider.chunks[FirstDone(provider.chunks)]
    requires Running(rules, provider.chunks, FirstDone(provider.chunks), carry, StreamedTokens(provider) == [], before, trace)
    requires !StreamingWriteRaises(provider, faults)
    ensures if raised then Interrupted(rules, provider, faults, body, frames, statuses)
            else Concluded(rules, provider, faults, body, frames, statuses)
  {
    frames, statuses, raised, body := before, trace, true, before;
    if faults.accounting {
      DoneRaises(rules, provider, faults, carry, frames, statuses);
      return;
    }
    var finalToken := carry + chunk.token;
    if finalToken != "" {
      var final := Redact(rules, finalToken);
      if final.redactionCount > 0 && faults.audit {
        DoneRaises(rules, provider, faults, carry, frames, statuses);
        return;
      }
      frames := frames + [TokenFrame(final.redactedText)];
    }
    body := frames;
    Flushed(rules, provider, faults, before, body);
    DoneSent(rules, provider, faults, body, statuses);
    frames := frames + [DoneFrame(chunk.usage)];
    raised := faults.completedWrite;
    if !raised { statuses := statuses + [Completed]; }
  }

  /** `_event_stream` */
  method EventStream(rules: seq<Rule>, provider: Provider, faults: Faults)
    returns (frames: seq<Frame>, statuses: seq<Status>)
    requires AreRegexes(rules)
    ensures IsRun(rules, provider, faults, frames, statuses)
  {
    frames, statuses := [TokenFrame("")], [Received];
    PulseOnly();
    var caught, returned := provider.Unavailable?, false;
    ghost var body := frames;
    if provider.Iterator? {
      var chunks := provider.chunks;
      var carry, firstToken, i := "", true, 0;
      StartRunning(rules, chunks);
      while i < |chunks| && !caught && !returned
        invariant 0 <= i <= |chunks| && !(caught && returned)
        invariant returned ==> Concluded(rules, provider, faults, body, frames, statuses)
        invariant caught ==> Interrupted(rules, provider, faults, body, frames, statuses)
        invariant !caught && !returned ==> Running(rules, chunks, i, carry, firstToken, frames, statuses)
        invariant !caught && !returned && !firstToken ==> !faults.streamingWrite
      {
        var token := chunks[i].token;
        if chunks[i].done {
          DoneHere(chunks, i);
          frames, statuses, caught, body := FinishRun(rules, provider, faults, chunks[i], carry, frames, statuses);
          returned := !caught;
        } else if token == "" {
          SkipChunk(rules, chunks, i, carry, firstToken, frames, statuses);
        } else if firstToken && faults.streamingWrite {
          FirstTokenRaises(rules, provider, faults, i, carry, frames, statuses);
          caught := true;
          body := frames;
        } else {
          var safe, newCarry := RedactStreamChunk(rules, token, carry);
          TokenChunk(rules, chunks, i, carry, firstToken, frames, statuses, safe, newCarry);
          if firstToken { statuses := statuses + [Streaming]; }
          carry, firstToken := newCarry, false;
          if safe != "" { frames := frames + [TokenFrame(safe)]; }
        }
        i := i + 1;
      }
      if !caught && !returned {
        RanOut(rules, provider, faults, carry, firstToken, frames, statuses);
        caught := provider.raises;
        body := frames;
      }
    }
    if caught {
      frames := frames + [ErrorFrame];
      if !faults.failedWrite { statuses := statuses + [Failed]; }
    }
  }

  /** Tokens seen stay seen. */
  lemma {:induction false} MoreTokens(chunks: seq<Chunk>, i: nat)
    requires i <= FirstDone(chunks)
    ensures Tokens(chunks[..i]) <= Tokens(chunks[..FirstDone(chunks)])
    decreases FirstDone(chunks) - i
  {
    if i < FirstDone(chunks) {
      MoreTokens(chunks, i + 1);
      NextToken(chunks, i);
    }
  }

  // ----- the protocol of a run -----

  lemma {:induction false} TerminalCountAppend(a: seq<Frame>, b: seq<Frame>)
    ensures TerminalCount(a + b) == TerminalCount(a) + TerminalCount(b)
  {
    if b == [] {
      assert a + b == a;
    } else {
      assert (a + b)[..|a + b|-1] == a + b[..|b|-1];
      TerminalCountAppend(a, b[..|b|-1]);
    }
  }

  lemma CountOfOne(f: Frame)
    ensures TerminalCount([f]) == if Terminal(f) then 1 else 0
  {
    AppendFrame([], f);
    assert [] + [f] == [f];
  }

  lemma CountOfTwo(f: Frame, g: Frame)
    requires Terminal(f) && Terminal(g)
    ensures TerminalCount([f] + [g]) == 2
  {
    CountOfOne(f);
    AppendFrame([f], g);
  }

  /** How many terminal frames a run ends with. */
  lemma TerminalFramesCounted(rules: seq<Rule>, provider: Provider, faults: Faults)
    requires AreRegexes(rules)
    ensures TerminalCount(TerminalFrames(rules, provider, faults)) ==
            if ReachesDone(rules, provider, faults) then if faults.completedWrite then 2 else 1
            else if Finishes(provider, faults) then 1 else 0
  {
    if ReachesDone(rules, provider, faults) {
      var done := DoneFrame(provider.chunks[FirstDone(provider.chunks)].usage);
      CountOfOne(done);
      CountOfTwo(done, ErrorFrame);
      assert [done] + [] == [done];
    } else {
      CountOfOne(ErrorFrame);
    }
  }

  lemma OnlyAtTheEnd(rules: seq<Rule>, provider: Provider, faults: Faults,
                     frames: seq<Frame>, statuses: seq<Status>)
    requires AreRegexes(rules) && IsRun(rules, provider, faults, frames, statuses)
    ensures TerminalCount(frames) == TerminalCount(TerminalFrames(rules, provider, faults))
  {
    TerminalCountAppend(RunBody(rules, provider, faults), TerminalFrames(rules, provider, faults));
  }

  lemma DoneIsFinish(rules: seq<Rule>, provider: Provider, faults: Faults)
    requires AreRegexes(rules) && ReachesDone(rules, provider, faults)
    ensures Finishes(provider, faults)
  {
  }

  /** Exactly one terminal frame is sent, unless the provider just stops, or the completed
      status cannot be written after the metadata frame. */
  lemma OneTerminalFrame(rules: seq<Rule>, provider: Provider, faults: Faults,
                         frames: seq<Frame>, statuses: seq<Status>)
    requires AreRegexes(rules) && IsRun(rules, provider, faults, frames, statuses)
    ensures TerminalCount(frames) == 1 <==>
            Finishes(provider, faults) && !(ReachesDone(rules, provider, faults) && faults.completedWrite)
  {
    OnlyAtTheEnd(rules, provider, faults, frames, statuses);
    TerminalFramesCounted(rules, provider, faults);
    if ReachesDone(rules, provider, faults) { DoneIsFinish(rules, provider, faults); }
  }

  /** With status writes that succeed and a provider that concludes: the empty pulse, then
      token frames, then one terminal frame; received, streaming if a token came, then
      completed or failed, in step with the terminal frame. */
  lemma RunProtocol(rules: seq<Rule>, provider: Provider, faults: Faults,
                    frames: seq<Frame>, statuses: seq<Status>)
    requires AreRegexes(rules) && IsRun(rules, provider, faults, frames, statuses)
    requires Concludes(provider)
    requires !faults.streamingWrite && !faults.completedWrite && !faults.failedWrite
    ensures |frames| >= 2 && frames[0] == TokenFrame("")
    ensures forall j :: 0 <= j < |frames| ==> (Terminal(frames[j]) <==> j == |frames| - 1)
    ensures forall j :: 1 <= j < |frames| - 1 ==> frames[j].token != ""
    ensures statuses == (if StreamedTokens(provider) == [] then [Received] else [Received, Streaming])
                        + [if Last(frames).DoneFrame? then Completed else Failed]
    ensures if ReachesDone(rules, provider, faults)
            then Last(frames) == DoneFrame(provider.chunks[FirstDone(provider.chunks)].usage)
            else Last(frames) == ErrorFrame
  {
    var terminal := OneTerminal(rules, provider, faults);
    EndsTerminal(RunBody(rules, provider, faults), DeliveredText(rules, provider, faults), terminal);
  }

  /** With status writes that succeed, the terminal frame and the last status go together. */
  lemma OneTerminal(rules: seq<Rule>, provider: Provider, faults: Faults) returns (f: Frame)
    requires AreRegexes(rules) && Concludes(provider)
    requires !faults.streamingWrite && !faults.completedWrite && !faults.failedWrite
    ensures TerminalFrames(rules, provider, faults) == [f] && Terminal(f)
    ensures f == if ReachesDone(rules, provider, faults)
                 then DoneFrame(provider.chunks[FirstDone(provider.chunks)].usage) else ErrorFrame
    ensures StatusTrace(rules, provider, faults)
         == (if StreamedTokens(provider) == [] then [Received] else [Received, Streaming])
            + [if f.DoneFrame? then Completed else Failed]
  {
    f := TerminalFrames(rules, provider, faults)[0];
  }

  lemma EndsTerminal(body: seq<Frame>, text: string, terminal: Frame)
    requires TokensOnly(body, text) && Terminal(terminal)
    ensures var frames := body + [terminal];
            && frames[0] == TokenFrame("") && Last(frames) == terminal
            && (forall j :: 0 <= j < |frames| ==> (Terminal(frames[j]) <==> j == |frames| - 1))
            && (forall j :: 1 <= j < |frames| - 1 ==> frames[j].token != "")
  {
  }

  // ----- one frame for each token -----

  lemma {:induction false} ReleasedSay(rules: seq<Rule>, tokens: seq<string>)
    requires AreRegexes(rules)
    ensures TokensOnly(ReleasedFrames(rules, tokens), StreamOver(rules, tokens).sent)
    ensures |ReleasedFrames(rules, tokens)| == 1 + ReleaseCount(rules, tokens)
  {
    if tokens == [] {
      PulseOnly();
    } else {
      var init := tokens[..|tokens|-1];
      ReleasedSay(rules, init);
      SafePart(ReleasedFrames(rules, init), StreamOver(rules, init).sent, ReleasedLast(rules, tokens));
      NoneMore(ReleasedFrames(rules, init));
    }
  }

  lemma NoneMore(frames: seq<Frame>)
    ensures frames + [] == frames
  {
  }

  lemma {:induction false} ReleasedFront(rules: seq<Rule>, tokens: seq<string>, k: nat)
    requires AreRegexes(rules) && k <= |tokens|
    ensures ReleasedFrames(rules, tokens[..k]) <= ReleasedFrames(rules, tokens)
  {
    if k == |tokens| {
      assert tokens[..k] == tokens;
    } else {
      var init := tokens[..|tokens|-1];
      assert init[..k] == tokens[..k];
      ReleasedFront(rules, init, k);
    }
  }

  /** After any number of tokens the frames sent by then say exactly the text released by then. */
  lemma FramesKeepUp(rules: seq<Rule>, provider: Provider, faults: Faults,
                     frames: seq<Frame>, statuses: seq<Status>, k: nat) returns (n: nat)
    requires AreRegexes(rules) && IsRun(rules, provider, faults, frames, statuses)
    requires !StreamingWriteRaises(provider, faults) && k <= |StreamedTokens(provider)|
    ensures n <= |frames| && frames[..n] == ReleasedFrames(rules, StreamedTokens(provider)[..k])
    ensures TokensOnly(frames[..n], StreamOver(rules, StreamedTokens(provider)[..k]).sent)
  {
    var front := ReleasedFrames(rules, StreamedTokens(provider)[..k]);
    ReleasedFront(rules, StreamedTokens(provider), k);
    ReleasedSay(rules, StreamedTokens(provider)[..k]);
    n := |front|;
    var body := RunBody(rules, provider, faults);
    assert front <= body;
    assert frames == body + TerminalFrames(rules, provider, faults);
  }

  /** A token that releases text is answered at once by one frame with exactly that text; one
      that releases none is answered by none. */
  lemma FramePerToken(rules: seq<Rule>, provider: Provider, faults: Faults,
                      frames: seq<Frame>, statuses: seq<Status>, k: nat) returns (n: nat)
    requires AreRegexes(rules) && IsRun(rules, provider, faults, frames, statuses)
    requires !StreamingWriteRaises(provider, faults) && k < |StreamedTokens(provider)|
    ensures var tokens := StreamedTokens(provider);
            var before, after := StreamOver(rules, tokens[..k]).sent, StreamOver(rules, tokens[..k+1]).sent;
            && n <= |frames| && frames[..n] == ReleasedFrames(rules, tokens[..k])
            && if before == after then frames[..n] == ReleasedFrames(rules, tokens[..k+1])
               else n < |frames| && frames[n].TokenFrame? && after == before + frames[n].token
                    && frames[..n+1] == ReleasedFrames(rules, tokens[..k+1])
  {
    var tokens := StreamedTokens(provider);
    n := FramesKeepUp(rules, provider, faults, frames, statuses, k);
    var n' := FramesKeepUp(rules, provider, faults, frames, statuses, k + 1);
    OneReleased(rules, tokens, k);
    assert frames[..n'][..n] == frames[..n];
  }

  lemma OneReleased(rules: seq<Rule>, tokens: seq<string>, k: nat)
    requires AreRegexes(rules) && k < |tokens|
    ensures var safe := Safe(Redacted(rules, StreamOver(rules, tokens[..k]).carry + tokens[k]));
            && StreamOver(rules, tokens[..k+1]).sent == StreamOver(rules, tokens[..k]).sent + safe
            && ReleasedFrames(rules, tokens[..k+1])
            == ReleasedFrames(rules, tokens[..k]) + if safe == "" then [] else [TokenFrame(safe)]
  {
    assert tokens[..k+1] == tokens[..k] + [tokens[k]];
    NextReleased(rules, tokens[..k], tokens[k]);
    NextStream(rules, tokens[..k], tokens[k]);
  }

  /** The number of token frames: the pulse, one for each token that releases text, and one for
      a flush that has text. */
  lemma FrameCount(rules: seq<Rule>, provider: Provider, faults: Faults,
                   frames: seq<Frame>, statuses: seq<Status>)
    requires AreRegexes(rules) && IsRun(rules, provider, faults, frames, statuses)
    ensures |frames| - |TerminalFrames(rules, provider, faults)| ==
            if StreamingWriteRaises(provider, faults) then 1
            else 1 + ReleaseCount(rules, StreamedTokens(provider))
                 + if ReachesDone(rules, provider, faults) && FinalText(rules, provider) != "" then 1 else 0
  {
    ReleasedSay(rules, StreamedTokens(provider));
  }

  // ----- a provider that answers in one piece -----

  const GEMINI_CHUNK := 48

  /** Where a slice that may run past the end stops. */
  function Cap(i: nat, n: nat): nat { if i < n then i else n }

  /** Chunks that are not done, with pieces of text no longer than 48, and exactly that before the last. */
  ghost predicate Pieces(chunks: seq<Chunk>) {
    && (forall j :: 0 <= j < |chunks| ==> 1 <= |chunks[j].token| <= 48 && !chunks[j].done && chunks[j].usage == None)
    && (forall j :: 0 <= j < |chunks| - 1 ==> |chunks[j].token| == 48)
  }

  /** Pieces that join to the text, and one done chunk without text, with the usage. */
  ghost predicate SaysInPieces(chunks: seq<Chunk>, text: string, usage: Option<nat>) {
    && chunks != [] && FirstDone(chunks) == |chunks| - 1 && chunks[|chunks|-1] == Chunk("", true, usage)
    && Concat(Tokens(chunks[..|chunks|-1])) == text
    && Pieces(chunks[..|chunks|-1])
  }

  /** All pieces so far are whole, unless the text has ended. */
  ghost predicate Whole(chunks: seq<Chunk>) {
    forall j :: 0 <= j < |chunks| ==> |chunks[j].token| == 48
  }

  /** `_call_gemini_stream`: the full text of the answer, cut into pieces. */
  method GeminiStream(text: string, usage: Option<nat>) returns (chunks: seq<Chunk>)
    ensures SaysInPieces(chunks, text, if text == "" then None else usage)
  {
    chunks := [];
    if text == "" {
      SaidInPieces(chunks, None);
      assert [] + [Chunk("", true, None)] == [Chunk("", true, None)];
      return [Chunk("", true, None)];
    }
    var i := 0;
    while i < |text|
      invariant 0 <= i
      invariant Pieces(chunks) && (i < |text| ==> Whole(chunks))
      invariant Concat(Tokens(chunks)) == text[..Cap(i, |text|)]
    {
      var end := Cap(i + GEMINI_CHUNK, |text|);
      AppendPiece(chunks, text[i..end]);
      JoinPiece(text, i, end);
      chunks := chunks + [Chunk(text[i..end], false, None)];
      i := i + GEMINI_CHUNK;
    }
    assert text[..|text|] == text;
    SaidInPieces(chunks, usage);
    chunks := chunks + [Chunk("", true, usage)];
  }

  lemma SaidInPieces(chunks: seq<Chunk>, usage: Option<nat>)
    requires Pieces(chunks)
    ensures SaysInPieces(chunks + [Chunk("", true, usage)], Concat(Tokens(chunks)), usage)
  {
    FirstDoneAtEnd(chunks, Chunk("", true, usage));
  }

  lemma JoinPiece(text: string, i: nat, end: nat)
    requires i <= end <= |text|
    ensures text[..i] + text[i..end] == text[..end]
  {
  }

  lemma AppendPiece(chunks: seq<Chunk>, piece: string)
    requires Pieces(chunks) && Whole(chunks) && 1 <= |piece| <= GEMINI_CHUNK
    ensures Concat(Tokens(chunks + [Chunk(piece, false, None)])) == Concat(Tokens(chunks)) + piece
    ensures Pieces(chunks + [Chunk(piece, false, None)])
    ensures |piece| == GEMINI_CHUNK ==> Whole(chunks + [Chunk(piece, false, None)])
  {
    var all, before := chunks + [Chunk(piece, false, None)], Tokens(chunks);
    assert all[..|all|-1] == chunks;
    assert (before + [piece])[..|before|] == before;
  }

  lemma {:induction false} FirstDoneAtEnd(chunks: seq<Chunk>, last: Chunk)
    requires last.done && forall j :: 0 <= j < |chunks| ==> !chunks[j].done
    ensures FirstDone(chunks + [last]) == |chunks| && (chunks + [last])[..|chunks|] == chunks
  {
    if chunks == [] {
    } else {
      assert (chunks + [last])[1..] == chunks[1..] + [last];
      FirstDoneAtEnd(chunks[1..], last);
    }
  }
}
