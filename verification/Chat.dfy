/** What the chat page shows: frames decoded and applied to the last message, and the
    whole way from the provider's tokens to the displayed text. */
module Chat {
  import opened EventStream
  import opened OutputGuard
  import opened Splice
  import opened Ssn
  import opened SseClient
  import opened SsnCuts
  import opened SsnDelivered
  import opened SsnStream
  import opened Texts
  import opened Wrappers

  /** The fields of a decoded event that the loop looks at. */
  datatype Data = Data(token: Option<string>, done: bool, error: bool)

  datatype Message = Message(fromAssistant: bool, content: string, isStreaming: bool, isError: bool, seal: Option<Data>)

  /** The message list, whether this answer has its bubble, and whether the loop has returned. */
  datatype View = View(messages: seq<Message>, placeholderAdded: bool, stopped: bool)

  /** `JSON.parse`, None where it throws. */
  type Decoder = string -> Option<Data>

  const INTERRUPTED := "Sorry, the stream was interrupted."

  function Placeholder(): Message { Message(true, "", true, false, None) }

  function AddPlaceholder(v: View): (r: View)
    ensures r.messages != []
    requires v.messages != []
  {
    if v.placeholderAdded then v else View(v.messages + [Placeholder()], true, v.stopped)
  }

  function SetLast(v: View, m: Message): (r: View)
    requires v.messages != []
    ensures |r.messages| == |v.messages|
  {
    v.(messages := v.messages[|v.messages|-1 := m])
  }

  function AppendToken(v: View, token: string): (r: View)
    requires v.messages != []
    ensures |r.messages| == |v.messages|
  {
    var m := Last(v.messages);
    SetLast(v, m.(content := m.content + token))
  }

  /** One decoded event. */
  function Show(v: View, data: Data): (r: View)
    requires v.messages != []
    ensures r.messages != []
  {
    if data.error then
      var w := AddPlaceholder(v);
      SetLast(w, Last(w.messages).(content := INTERRUPTED, isStreaming := false, isError := true)).(stopped := true)
    else
      var w := if data.token.Some? then AddPlaceholder(v) else v;
      var x := if data.token.Some? && data.token.value != "" then AppendToken(w, data.token.value) else w;
      if data.done then SetLast(x, Last(x.messages).(isStreaming := false, seal := Some(data))) else x
  }

  /** One payload: skipped when it does not parse, ignored once the loop has returned. */
  function ShowPayload(decode: Decoder, v: View, payload: string): (r: View)
    requires v.messages != []
    ensures r.messages != []
  {
    if v.stopped || decode(payload).None? then v else Show(v, decode(payload).value)
  }

  function ShowPayloads(decode: Decoder, v: View, payloads: seq<string>): (r: View)
    requires v.messages != []
    ensures r.messages != []
  {
    if payloads == [] then v
    else ShowPayload(decode, ShowPayloads(decode, v, payloads[..|payloads|-1]), payloads[|payloads|-1])
  }

  /** One event: its data line, if it has one. */
  function ShowEvent(decode: Decoder, v: View, event: string): (r: View)
    requires v.messages != []
    ensures r.messages != []
  {
    var line := DataLine(Lines(event));
    if line == [] then v else ShowPayload(decode, v, line[0])
  }

  function ShowEvents(decode: Decoder, v: View, events: seq<string>): (r: View)
    requires v.messages != []
    ensures r.messages != []
  {
    if events == [] then v
    else ShowEvent(decode, ShowEvents(decode, v, events[..|events|-1]), events[|events|-1])
  }

  lemma {:induction false} ShowMore(decode: Decoder, v: View, a: seq<string>, b: seq<string>)
    requires v.messages != []
    ensures ShowEvents(decode, v, a + b) == ShowEvents(decode, ShowEvents(decode, v, a), b)
  {
    if b == [] {
      assert a + b == a;
    } else {
      assert (a + b)[..|a + b|-1] == a + b[..|b|-1];
      ShowMore(decode, v, a, b[..|b|-1]);
    }
  }

  lemma {:induction false} StoppedStays(decode: Decoder, v: View, events: seq<string>)
    requires v.messages != [] && v.stopped
    ensures ShowEvents(decode, v, events) == v
  {
    if events == [] {
    } else {
      StoppedStays(decode, v, events[..|events|-1]);
    }
  }

  /** Once the loop has returned, the events still to come make no difference. */
  lemma StoppedEarly(decode: Decoder, start: View, seen: seq<string>, later: seq<string>)
    requires start.messages != [] && ShowEvents(decode, start, seen).stopped
    ensures ShowEvents(decode, start, seen + later) == ShowEvents(decode, start, seen)
  {
    ShowMore(decode, start, seen, later);
    StoppedStays(decode, ShowEvents(decode, start, seen), later);
  }

  /** Events count only through their payloads. */
  lemma {:induction false} EventsArePayloads(decode: Decoder, v: View, events: seq<string>)
    requires v.messages != []
    ensures ShowEvents(decode, v, events) == ShowPayloads(decode, v, Payloads(events))
  {
    if events == [] {
    } else {
      var init := events[..|events|-1];
      var line := DataLine(Lines(events[|events|-1]));
      EventsArePayloads(decode, v, init);
      if line == [] {
        assert Payloads(init) + line == Payloads(init);
      } else {
        assert (Payloads(init) + line)[..|Payloads(init)|] == Payloads(init);
      }
    }
  }

  /** An error that comes before any token gets a bubble of its own; an event without token,
      end or error changes nothing. */
  lemma FirstEvents(messages: seq<Message>, done: bool, token: Option<string>)
    requires messages != []
    ensures Show(View(messages, false, false), Data(token, done, true))
         == View(messages + [Message(true, "Sorry, the stream was interrupted.", false, true, None)], true, true)
    ensures Show(View(messages, false, false), Data(None, false, false)) == View(messages, false, false)
  {
    var sorry := Placeholder().(content := INTERRUPTED, isStreaming := false, isError := true);
    assert (messages + [Placeholder()])[|messages| := sorry] == messages + [sorry];
  }

  /** A payload that does not parse makes no difference, wherever it stands. */
  lemma {:induction false} NoiseIsSkipped(decode: Decoder, v: View, a: seq<string>, noise: string, b: seq<string>)
    requires v.messages != [] && decode(noise) == None
    ensures ShowPayloads(decode, v, a + [noise] + b) == ShowPayloads(decode, v, a + b)
  {
    var all := a + [noise] + b;
    if b == [] {
      assert all[..|a|] == a && a + b == a && all == a + [noise];
    } else {
      var init := b[..|b|-1];
      assert all[..|all|-1] == a + [noise] + init && (a + b)[..|a + b|-1] == a + init;
      NoiseIsSkipped(decode, v, a, noise, init);
    }
  }

  /** The `for` loop over the complete events; it returns early on an error event. */
  method DispatchEvents(decode: Decoder, before: View, events: seq<string>) returns (v: View)
    requires before.messages != [] && !before.stopped
    ensures v.messages != []
    ensures v == ShowEvents(decode, before, events)
  {
    v := before;
    for e := 0 to |events|
      invariant v.messages != [] && !v.stopped
      invariant v == ShowEvents(decode, before, events[..e])
    {
      assert events[..e+1][..e] == events[..e];
      v := ShowEvent(decode, v, events[e]);
      if v.stopped {
        assert events == events[..e+1] + events[e+1..];
        StoppedEarly(decode, before, events[..e+1], events[e+1..]);
        return;
      }
    }
    assert events[..|events|] == events;
  }

  /** The events of one more network chunk, after those seen already. */
  lemma NextChunk(decode: Decoder, start: View, seen: string, chunk: string)
    requires start.messages != []
    ensures var buffer := Tail(seen) + chunk;
            && Tail(seen + chunk) == Tail(buffer)
            && ShowEvents(decode, start, Complete(seen + chunk))
            == ShowEvents(decode, ShowEvents(decode, start, Complete(seen)), Complete(buffer))
  {
    SplitLater(seen, chunk);
    ShowMore(decode, start, Complete(seen), Complete(Tail(seen) + chunk));
  }

  lemma StoppedInText(decode: Decoder, start: View, seen: string, later: string)
    requires start.messages != [] && ShowEvents(decode, start, Complete(seen)).stopped
    ensures ShowEvents(decode, start, Complete(seen + later)) == ShowEvents(decode, start, Complete(seen))
  {
    SplitLater(seen, later);
    StoppedEarly(decode, start, Complete(seen), Complete(Tail(seen) + later));
  }

  /** What the loop carries from one network chunk to the next. */
  datatype Reading = Reading(view: View, buffer: string)

  /** One turn of the loop, unless it has returned. */
  function ReadChunk(decode: Decoder, r: Reading, chunk: string): (next: Reading)
    requires r.view.messages != []
    ensures next.view.messages != []
  {
    if r.view.stopped then r
    else Reading(ShowEvents(decode, r.view, Complete(r.buffer + chunk)), Tail(r.buffer + chunk))
  }

  function ReadChunks(decode: Decoder, messages: seq<Message>, chunks: seq<string>): (r: Reading)
    requires messages != []
    ensures r.view.messages != []
  {
    if chunks == [] then Reading(View(messages, false, false), "")
    else ReadChunk(decode, ReadChunks(decode, messages, chunks[..|chunks|-1]), chunks[|chunks|-1])
  }

  /** Chunk by chunk the page shows what dispatching the whole response at once would, and
      keeps the same tail. */
  lemma {:induction false} ReadIsWhole(decode: Decoder, messages: seq<Message>, chunks: seq<string>)
    requires messages != []
    ensures var r := ReadChunks(decode, messages, chunks);
            && r.view == ShowEvents(decode, View(messages, false, false), Complete(Concat(chunks)))
            && (!r.view.stopped ==> r.buffer == Tail(Concat(chunks)))
  {
    var start := View(messages, false, false);
    if chunks == [] {
      assert Split("") == [""];
    } else {
      var init, chunk := chunks[..|chunks|-1], chunks[|chunks|-1];
      ReadIsWhole(decode, messages, init);
      if ReadChunks(decode, messages, init).view.stopped {
        StoppedInText(decode, start, Concat(init), chunk);
      } else {
        NextChunk(decode, start, Concat(init), chunk);
      }
    }
  }

  /** Chunks that come after the loop has returned. */
  lemma {:induction false} StoppedReading(decode: Decoder, messages: seq<Message>, chunks: seq<string>, n: nat)
    requires messages != [] && n <= |chunks|
    requires ReadChunks(decode, messages, chunks[..n]).view.stopped
    ensures ReadChunks(decode, messages, chunks) == ReadChunks(decode, messages, chunks[..n])
  {
    if n == |chunks| {
      assert chunks[..n] == chunks;
    } else {
      var init := chunks[..|chunks|-1];
      assert init[..n] == chunks[..n];
      StoppedReading(decode, messages, init, n);
    }
  }

  /** The read loop of `_doSend` over the network chunks of one response. */
  method ReadStream(decode: Decoder, messages: seq<Message>, chunks: seq<string>) returns (v: View, buffer: string)
    requires messages != []
    ensures Reading(v, buffer) == ReadChunks(decode, messages, chunks)
    ensures v.messages != []
    ensures v == ShowEvents(decode, View(messages, false, false), Complete(Concat(chunks)))
  {
    v, buffer := View(messages, false, false), "";
    for n := 0 to |chunks|
      invariant Reading(v, buffer) == ReadChunks(decode, messages, chunks[..n])
      invariant v.messages != [] && !v.stopped
    {
      assert chunks[..n+1][..n] == chunks[..n];
      buffer := buffer + chunks[n];
      var events := Split(buffer);
      buffer, events := events[|events|-1], events[..|events|-1];
      v := DispatchEvents(decode, v, events);
      if v.stopped {
        StoppedReading(decode, messages, chunks, n + 1);
        ReadIsWhole(decode, messages, chunks);
        return;
      }
    }
    assert chunks[..|chunks|] == chunks;
    ReadIsWhole(decode, messages, chunks);
  }

  // ----- from the provider to the page -----

  function DataOf(f: Frame): Data {
    match f
    case TokenFrame(t) => Data(Some(t), false, false)
    case DoneFrame(_) => Data(Some(""), true, false)
    case ErrorFrame => Data(None, true, true)
  }

  /** All the model assumes of `json.dumps` and `JSON.parse`. */
  ghost predicate Faithful(encode: Frame -> string, decode: Decoder) {
    forall f: Frame :: NoNewline(encode(f)) && decode(encode(f)) == Some(DataOf(f))
  }

  function Encoded(encode: Frame -> string, frames: seq<Frame>): (payloads: seq<string>)
    ensures |payloads| == |frames|
    ensures forall i :: 0 <= i < |frames| ==> payloads[i] == encode(frames[i])
  {
    seq(|frames|, i requires 0 <= i < |frames| => encode(frames[i]))
  }

  lemma NextFrame(encode: Frame -> string, decode: Decoder, start: View, frames: seq<Frame>, f: Frame)
    requires Faithful(encode, decode) && start.messages != []
    ensures var v := ShowPayloads(decode, start, Encoded(encode, frames));
            ShowPayloads(decode, start, Encoded(encode, frames + [f])) == if v.stopped then v else Show(v, DataOf(f))
  {
    var all := Encoded(encode, frames + [f]);
    assert all[..|all|-1] == Encoded(encode, frames);
  }

  /** Token frames fill one streaming bubble. */
  lemma {:induction false} ShowTokens(encode: Frame -> string, decode: Decoder, messages: seq<Message>,
                                      body: seq<Frame>, text: string)
    requires Faithful(encode, decode) && messages != [] && TokensOnly(body, text)
    ensures ShowPayloads(decode, View(messages, false, false), Encoded(encode, body))
         == View(messages + [Message(true, text, true, false, None)], true, false)
  {
    var init, f, start := body[..|body|-1], body[|body|-1], View(messages, false, false);
    assert body == init + [f];
    NextFrame(encode, decode, start, init, f);
    EventStream.AppendFrame(init, f);
    if init == [] {
      assert ShowPayloads(decode, start, Encoded(encode, init)) == start;
    } else {
      var text' := TokenText(init);
      assert TokensOnly(init, text');
      ShowTokens(encode, decode, messages, init, text');
      var bubble := Message(true, text', true, false, None);
      assert (messages + [bubble])[|messages| := bubble.(content := text)]
          == messages + [bubble.(content := text)];
    }
  }

  /** A frame that closes the bubble. */
  lemma ShowTerminal(messages: seq<Message>, text: string, f: Frame)
    requires Terminal(f)
    ensures Show(View(messages + [Message(true, text, true, false, None)], true, false), DataOf(f))
         == if f.ErrorFrame?
            then View(messages + [Message(true, INTERRUPTED, false, true, None)], true, true)
            else View(messages + [Message(true, text, false, false, Some(DataOf(f)))], true, false)
  {
    var bubble := Message(true, text, true, false, None);
    var sealed := if f.ErrorFrame? then bubble.(content := INTERRUPTED, isStreaming := false, isError := true)
                  else bubble.(isStreaming := false, seal := Some(DataOf(f)));
    assert (messages + [bubble])[|messages| := sealed] == messages + [sealed];
  }

  /** The frames that were sent are the frames that are shown. */
  lemma FramesShown(encode: Frame -> string, decode: Decoder, messages: seq<Message>, chunks: seq<string>, frames: seq<Frame>)
    requires Faithful(encode, decode) && messages != []
    requires Concat(chunks) == Wire(Encoded(encode, frames))
    ensures var r := ReadChunks(decode, messages, chunks);
            && r.view == ShowPayloads(decode, View(messages, false, false), Encoded(encode, frames))
            && (!r.view.stopped ==> r.buffer == "")
  {
    ReadIsWhole(decode, messages, chunks);
    ReceivedSoFar(chunks);
    FramesRecovered(Encoded(encode, frames), chunks);
    EventsArePayloads(decode, View(messages, false, false), Complete(Concat(chunks)));
  }

  /** What the page shows after a run, for every way the response is cut into network chunks. */
  lemma Displayed(encode: Frame -> string, decode: Decoder, messages: seq<Message>, chunks: seq<string>,
                  rules: seq<Rule>, provider: Provider, faults: Faults,
                  frames: seq<Frame>, statuses: seq<Status>)
    requires Faithful(encode, decode) && messages != [] && AreRegexes(rules)
    requires IsRun(rules, provider, faults, frames, statuses)
    requires ReachesDone(rules, provider, faults) && !faults.completedWrite
    requires Concat(chunks) == Wire(Encoded(encode, frames))
    ensures var r := ReadChunks(decode, messages, chunks);
            var v := r.view;
            && r.buffer == "" && !v.stopped
            && |v.messages| == |messages| + 1 && v.messages[..|messages|] == messages
            && var answer := Last(v.messages);
            && answer.content == DeliveredText(rules, provider, faults)
            && answer.fromAssistant && !answer.isStreaming && !answer.isError && answer.seal.Some?
  {
    FramesShown(encode, decode, messages, chunks, frames);
    var done := DoneFrame(provider.chunks[FirstDone(provider.chunks)].usage);
    assert TerminalFrames(rules, provider, faults) == [done];
    var body := RunBody(rules, provider, faults);
    ShowTokens(encode, decode, messages, body, DeliveredText(rules, provider, faults));
    NextFrame(encode, decode, View(messages, false, false), body, done);
    ShowTerminal(messages, DeliveredText(rules, provider, faults), done);
  }

  /** The error frame, whatever the bubble held. */
  lemma ShowError(messages: seq<Message>, bubble: Message)
    ensures Show(View(messages + [bubble], true, false), DataOf(ErrorFrame))
         == View(messages + [bubble.(content := INTERRUPTED, isStreaming := false, isError := true)], true, true)
  {
    var sorry := bubble.(content := INTERRUPTED, isStreaming := false, isError := true);
    assert (messages + [bubble])[|messages| := sorry] == messages + [sorry];
  }

  /** What seals a bubble: the data of the metadata frame, if the run got that far. */
  ghost function SealOf(rules: seq<Rule>, provider: Provider, faults: Faults): Option<Data>
    requires AreRegexes(rules)
  {
    if ReachesDone(rules, provider, faults)
    then Some(DataOf(DoneFrame(provider.chunks[FirstDone(provider.chunks)].usage)))
    else None
  }

  /** The metadata frame and then the error frame: the sealed answer is overwritten. */
  lemma ShowDoneThenError(encode: Frame -> string, decode: Decoder, messages: seq<Message>,
                          body: seq<Frame>, text: string, done: Frame)
    requires Faithful(encode, decode) && messages != [] && TokensOnly(body, text) && done.DoneFrame?
    ensures ShowPayloads(decode, View(messages, false, false), Encoded(encode, body + [done] + [ErrorFrame]))
         == View(messages + [Message(true, INTERRUPTED, false, true, Some(DataOf(done)))], true, true)
  {
    ShowTokens(encode, decode, messages, body, text);
    NextFrame(encode, decode, View(messages, false, false), body, done);
    ShowTerminal(messages, text, done);
    NextFrame(encode, decode, View(messages, false, false), body + [done], ErrorFrame);
    ShowError(messages, Message(true, text, false, false, Some(DataOf(done))));
  }

  /** A run that fails leaves the apology and none of the delivered text; so does a run whose
      completed status cannot be written, although its answer was complete and sealed. */
  lemma DisplayedOnFailure(encode: Frame -> string, decode: Decoder, messages: seq<Message>, chunks: seq<string>,
                           rules: seq<Rule>, provider: Provider, faults: Faults,
                           frames: seq<Frame>, statuses: seq<Status>)
    requires Faithful(encode, decode) && messages != [] && AreRegexes(rules)
    requires IsRun(rules, provider, faults, frames, statuses)
    requires Finishes(provider, faults) && (ReachesDone(rules, provider, faults) ==> faults.completedWrite)
    requires Concat(chunks) == Wire(Encoded(encode, frames))
    ensures ReadChunks(decode, messages, chunks).view
         == View(messages + [Message(true, INTERRUPTED, false, true, SealOf(rules, provider, faults))], true, true)
  {
    FramesShown(encode, decode, messages, chunks, frames);
    if ReachesDone(rules, provider, faults) {
      ShowRunDone(encode, decode, messages, rules, provider, faults, frames, statuses);
    } else {
      ShowRunFailed(encode, decode, messages, rules, provider, faults, frames, statuses);
    }
  }

  lemma ShowRunDone(encode: Frame -> string, decode: Decoder, messages: seq<Message>,
                    rules: seq<Rule>, provider: Provider, faults: Faults,
                    frames: seq<Frame>, statuses: seq<Status>)
    requires Faithful(encode, decode) && messages != [] && AreRegexes(rules)
    requires IsRun(rules, provider, faults, frames, statuses)
    requires ReachesDone(rules, provider, faults) && faults.completedWrite
    ensures ShowPayloads(decode, View(messages, false, false), Encoded(encode, frames))
         == View(messages + [Message(true, INTERRUPTED, false, true, SealOf(rules, provider, faults))], true, true)
  {
    var body, done := RunBody(rules, provider, faults), DoneFrame(provider.chunks[FirstDone(provider.chunks)].usage);
    Assoc(body, [done], [ErrorFrame]);
    ShowDoneThenError(encode, decode, messages, body, DeliveredText(rules, provider, faults), done);
  }

  lemma ShowRunFailed(encode: Frame -> string, decode: Decoder, messages: seq<Message>,
                      rules: seq<Rule>, provider: Provider, faults: Faults,
                      frames: seq<Frame>, statuses: seq<Status>)
    requires Faithful(encode, decode) && messages != [] && AreRegexes(rules)
    requires IsRun(rules, provider, faults, frames, statuses)
    requires Finishes(provider, faults) && !ReachesDone(rules, provider, faults)
    ensures ShowPayloads(decode, View(messages, false, false), Encoded(encode, frames))
         == View(messages + [Message(true, INTERRUPTED, false, true, None)], true, true)
  {
    var body, text := RunBody(rules, provider, faults), DeliveredText(rules, provider, faults);
    ShowTokens(encode, decode, messages, body, text);
    NextFrame(encode, decode, View(messages, false, false), body, ErrorFrame);
    ShowTerminal(messages, text, ErrorFrame);
  }

  /** A provider that just stops leaves the bubble open, with the text sent so far. */
  lemma DisplayedUnfinished(encode: Frame -> string, decode: Decoder, messages: seq<Message>, chunks: seq<string>,
                            rules: seq<Rule>, provider: Provider, faults: Faults,
                            frames: seq<Frame>, statuses: seq<Status>)
    requires Faithful(encode, decode) && messages != [] && AreRegexes(rules)
    requires IsRun(rules, provider, faults, frames, statuses)
    requires !Finishes(provider, faults)
    requires Concat(chunks) == Wire(Encoded(encode, frames))
    ensures ReadChunks(decode, messages, chunks)
         == Reading(View(messages + [Message(true, StreamOver(rules, StreamedTokens(provider)).sent, true, false, None)],
                         true, false), "")
  {
    FramesShown(encode, decode, messages, chunks, frames);
    assert frames == RunBody(rules, provider, faults);
    ShowTokens(encode, decode, messages, frames, DeliveredText(rules, provider, faults));
  }

  /** With the SSN rule alone, the page shows the provider's text with disjoint SSN-shaped
      spans replaced, every true SSN among them: for all tokens and all network chunkings. */
  lemma DisplayedIsRedacted(encode: Frame -> string, decode: Decoder, messages: seq<Message>, chunks: seq<string>,
                            provider: Provider, faults: Faults,
                            frames: seq<Frame>, statuses: seq<Status>)
    returns (spans: seq<Span>)
    requires Faithful(encode, decode) && messages != [] && AreRegexes(SsnOnly())
    requires IsRun(SsnOnly(), provider, faults, frames, statuses)
    requires ReachesDone(SsnOnly(), provider, faults) && !faults.completedWrite
    requires Concat(chunks) == Wire(Encoded(encode, frames))
    ensures var text := ProviderText(provider);
            var v := ReadChunks(decode, messages, chunks).view;
            Redacts(text, spans) && Last(v.messages).content == Fill(text, spans, SSN_PLACEHOLDER, 0)
  {
    Displayed(encode, decode, messages, chunks, SsnOnly(), provider, faults, frames, statuses);
    assert !StreamingWriteRaises(provider, faults);
    spans := StreamedText(StreamedTokens(provider), provider.chunks[FirstDone(provider.chunks)].token);
  }

  /** If the text has no shape that a cut can make an SSN of, the page shows one pass over it,
      and no SSN. */
  lemma DisplayedIsPass(encode: Frame -> string, decode: Decoder, messages: seq<Message>, chunks: seq<string>,
                        provider: Provider, faults: Faults,
                        frames: seq<Frame>, statuses: seq<Status>)
    requires Faithful(encode, decode) && messages != [] && AreRegexes(SsnOnly())
    requires IsRun(SsnOnly(), provider, faults, frames, statuses)
    requires ReachesDone(SsnOnly(), provider, faults) && !faults.completedWrite
    requires Concat(chunks) == Wire(Encoded(encode, frames))
    requires Insensitive(ProviderText(provider))
    ensures var content := Last(ReadChunks(decode, messages, chunks).view.messages).content;
            content == Redacted(SsnOnly(), ProviderText(provider)) && forall r: nat :: !SsnAt(content, r)
  {
    Displayed(encode, decode, messages, chunks, SsnOnly(), provider, faults, frames, statuses);
    assert !StreamingWriteRaises(provider, faults);
    var tokens, last := StreamedTokens(provider), provider.chunks[FirstDone(provider.chunks)].token;
    InsensitiveIsPass(tokens, last);
    forall r: nat ensures !SsnAt(StreamText(SsnOnly(), tokens, last), r) {
      PassHoldsNoSsn(tokens, last, r);
    }
  }

  /** The page never shows an SSN, for all tokens and all network chunkings, unless the
      provider's text exposes a shape; for that it needs two shapes side by side. */
  lemma DisplayedHoldsNoSsn(encode: Frame -> string, decode: Decoder, messages: seq<Message>, chunks: seq<string>,
                            provider: Provider, faults: Faults,
                            frames: seq<Frame>, statuses: seq<Status>)
    requires Faithful(encode, decode) && messages != [] && AreRegexes(SsnOnly())
    requires IsRun(SsnOnly(), provider, faults, frames, statuses)
    requires ReachesDone(SsnOnly(), provider, faults) && !faults.completedWrite
    requires Concat(chunks) == Wire(Encoded(encode, frames))
    requires !Exposed(ProviderText(provider))
    ensures !HoldsSsn(Last(ReadChunks(decode, messages, chunks).view.messages).content)
  {
    Displayed(encode, decode, messages, chunks, SsnOnly(), provider, faults, frames, statuses);
    assert !StreamingWriteRaises(provider, faults);
    DeliveredHoldsNoSsn(StreamedTokens(provider), provider.chunks[FirstDone(provider.chunks)].token);
  }

  /** Everything the provider wrote, up to and with its done chunk. */
  function ProviderText(provider: Provider): string
    requires provider.Iterator? && FirstDone(provider.chunks) < |provider.chunks|
  {
    Concat(StreamedTokens(provider)) + provider.chunks[FirstDone(provider.chunks)].token
  }

  /** No rule finds anything in any window of the stream. */
  ghost predicate NoWindowChanged(rules: seq<Rule>, tokens: seq<string>)
    requires AreRegexes(rules)
  {
    tokens != [] ==>
      var init, token := tokens[..|tokens|-1], tokens[|tokens|-1];
      var window := StreamOver(rules, init).carry + token;
      Redacted(rules, window) == window && NoWindowChanged(rules, init)
  }

  /** Without redactions the loop only delays the text. */
  lemma {:induction false} NothingLost(rules: seq<Rule>, tokens: seq<string>)
    requires AreRegexes(rules) && NoWindowChanged(rules, tokens)
    ensures StreamOver(rules, tokens).sent + StreamOver(rules, tokens).carry == Concat(tokens)
  {
    if tokens == [] {
    } else {
      var init, token := tokens[..|tokens|-1], tokens[|tokens|-1];
      NothingLost(rules, init);
      var st := StreamOver(rules, init);
      NextState(st, st.carry + token);
      Assoc(st.sent, st.carry, token);
    }
  }

  /** Then the displayed text is what the provider wrote. */
  lemma DisplayedIsSource(encode: Frame -> string, decode: Decoder, messages: seq<Message>, chunks: seq<string>,
                          rules: seq<Rule>, provider: Provider, faults: Faults,
                          frames: seq<Frame>, statuses: seq<Status>)
    requires Faithful(encode, decode) && messages != [] && AreRegexes(rules)
    requires IsRun(rules, provider, faults, frames, statuses)
    requires ReachesDone(rules, provider, faults) && !faults.completedWrite
    requires NoWindowChanged(rules, StreamedTokens(provider))
    requires Redacted(rules, FinalText(rules, provider)) == FinalText(rules, provider)
    requires Concat(chunks) == Wire(Encoded(encode, frames))
    ensures var v := ReadChunks(decode, messages, chunks).view;
            Last(v.messages).content == ProviderText(provider)
  {
    Displayed(encode, decode, messages, chunks, rules, provider, faults, frames, statuses);
    NothingLost(rules, StreamedTokens(provider));
    var st := StreamOver(rules, StreamedTokens(provider));
    Assoc(st.sent, st.carry, provider.chunks[FirstDone(provider.chunks)].token);
    assert !StreamingWriteRaises(provider, faults);
  }
}
