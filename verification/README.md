# Verified model of the AI gateway's stateful algorithms

The gateway streams answers of AI providers to a chat page, removes personal data on the
way, checks quotas and policies, caches classifications, and ships logs. Most of it is
plumbing; this project models the parts that are algorithms, and proves for every input,
every run or every reachable state what they promise. `dafny verify dfyconfig.toml` checks
everything.

| file | models |
|---|---|
| `CharClass.dfy`, `Texts.dfy`, `Wrappers.dfy` | the classes `\d` and `\w`, kept abstract; facts about concatenation; shared types |
| `Splice.dfy`, `Ssn.dfy`, `OutputGuard.dfy` | redaction by rules: spans, reverse splicing, the SSN pattern, the carry of a stream chunk |
| `Marked.dfy`, `SsnStream.dfy`, `SsnPass.dfy` | texts with hidden spans; the SSN rule over a stream, and over a whole text |
| `SsnCuts.dfy` | the exact condition under which the two agree for every cutting into chunks |
| `SsnDelivered.dfy` | the exact condition under which no delivered text holds an SSN |
| `EventStream.dfy` | the generator behind `submit_stream`: frames and status writes |
| `SseClient.dfy`, `Chat.dfy` | the page's read loop, and the way from provider tokens to displayed text |
| `BoundedQueue.dfy` | the log shipper's queue with fixed concurrency |
| `Luhn.dfy`, `Iban.dfy` | checksum arithmetic and what it detects |
| `Cache.dfy` | the classification cache: an LRU in front of Redis |
| `FlattenDict.dfy` | nested plugin configurations and dotted keys |
| `Policy.dfy`, `Fingerprint.dfy`, `PolicySync.dfy` | policy evaluation locally and through OPA, the policy hash, the sync state machine |
| `RateLimiter.dfy`, `Quota.dfy` | the page's sliding window, and the daily token counter |

## How the main results fit together

*Streaming redaction.* A stream is explained by a marked text (`Marked.Marks`): its source
reading is what the provider wrote, its rendering is what the client was sent plus the
carry. Each chunk re-marks the text. `SsnStream.StreamedText` says that for every cutting
of the text into chunks the client gets the text with disjoint SSN-shaped spans replaced,
every true SSN among them. The stream may replace more than one pass over the whole text
would. `SsnCuts.StreamIsPass` says exactly when no cutting can: if and only if the text has
no SSN shape that ends too soon (only the character behind it keeps it from being an SSN)
and none that begins too late (only the character in front of it does, no SSN covers its
front, and some front of the text leaves it at the start of a whole carry). Both are
conditions on the text alone, and where one fails a single cut into two pieces shows it
(`SsnCuts.SensitiveOverRedacts`).

*SSNs in what is delivered.* A text that is delivered can hold an SSN although every SSN of
the source was replaced: a stream that replaces the second of two shapes side by side may
make an SSN of the first, which it has sent. `SsnDelivered.StreamHoldsNoSsn` says exactly
when: some stream of a text delivers an SSN if and only if the text has two shapes side by
side of which the first is loose (no word character in front, or only one of a shape that is
loose itself) and the second is late (no word character behind, and some front of the text
lets the carry begin with it). `SsnDelivered.CanRender` computes which lengths the text
behind a place can render to. So it takes two shapes side by side
(`SsnDelivered.TwinsAreNeeded`); `SsnCuts.TwinExample` is a concrete text.

`Chat.DisplayedIsRedacted`, `Chat.DisplayedIsPass` and `Chat.DisplayedHoldsNoSsn` carry these
statements to the screen, through the frames, the wire, and any cutting of the wire into
network chunks.

*Failures.* A run sends exactly one terminal frame, except that a failing status write
after the metadata frame adds an error frame; `EventStream.OneTerminalFrame` has the exact
condition. `Chat.Displayed`, `Chat.DisplayedOnFailure` and `Chat.DisplayedUnfinished` say
what the page shows after each kind of run, an answer that was complete and is overwritten
by the apology among them.

*Conditions found.* `FlattenDict.RoundTrip` and `FlattenDict.EveryOrderWorks` are
if-and-only-if: a dotted key, an empty sub-dictionary, or an empty or null leaf does not
come back, and a stored key that is a dotted prefix of another makes some key order raise a
`TypeError`, while the order by falling path length works (`FlattenDict.OrderMatters`).
`Cache.SetKeepsCoherence` says exactly when a set may leave a stale value behind in Redis,
`Cache.CoherentIffGuarded` carries that to runs, and `Cache.StaleAfterFailedWrite` is a run
that returns a stale value.
`Policy.AgreeIff` says exactly when the OPA path and the local path give one verdict.
`RateLimiter.SixSpanExact` says for every run, orderly or not, that six sends span the window
if and only if fewer than five are recent at each send; `registerSend` does not ask that, and
`RateLimiter.LateConfirmation` says exactly when a confirmation dialog then breaks the limit.
`Iban.Mod97Check` raises a `ValueError` exactly on texts of legal length and characters with a
digit that `isdigit` takes and `int` does not (`Iban.RaisesIff`); its only caller hands it
matches of a pattern whose `\d` takes decimal digits, so it meets none.

*Assumptions.* A regex engine reports ordered, disjoint spans (`OutputGuard.IsRegex`).
`json.dumps` and `JSON.parse` undo each other and write no newline (`Chat.Faithful`). The
policy encoder is injective (`Fingerprint.IsEncoding`); SHA-256 gives digests of one length
(`Cache.IsDigest`) and does not collide on the two texts that a lemma is about.
OPA keeps the document it was pushed last, and a push that failed is stored at once or
never. Redis loses entries only where a step says so. Clocks do not go back.

## Model

| member | source | states |
|---|---|---|
| OutputGuard.ApplyRule | fastapi_backend/app/services/output_guard_service.py:107-120 | splicing the matches of one rule from the last to the first gives the left-to-right rebuild from gaps and placeholders, rejected matches kept, and counts the accepted ones |
| OutputGuard.SpliceStep | fastapi_backend/app/services/output_guard_service.py:109-118 | one reverse splice keeps the indices of all earlier matches valid and extends the rebuilt tail |
| OutputGuard.Redact | fastapi_backend/app/services/output_guard_service.py:98-133 | the rules apply one after the other, with the count and the types of everything accepted |
| OutputGuard.RedactStreamChunk | fastapi_backend/app/services/output_guard_service.py:135-165 | sent part and new carry together are the redaction of old carry and chunk; at most thirty characters wait, exactly thirty when something is sent |
| OutputGuard.RuleLength | fastapi_backend/app/services/output_guard_service.py:113-118 | the new length follows from the accepted matches |
| OutputGuard.RulesCompose | fastapi_backend/app/services/output_guard_service.py:104-133 | redacting by two lists of rules one after the other: counts add up, types come together |
| OutputGuard.OneRuleReports | fastapi_backend/app/services/output_guard_service.py:107-127 | one rule counts its accepted matches and reports its label if and only if there are any |
| OutputGuard.HitsAreValid | fastapi_backend/app/services/output_guard_service.py:110-116 | a match counts if and only if the validator takes it |
| OutputGuard.ReportIsHonest | fastapi_backend/app/services/output_guard_service.py:98-133 | no count if and only if no types, and then the text is unchanged |
| OutputGuard.SsnRulePass | fastapi_backend/app/services/output_guard_service.py:39-77 | the SSN rule alone replaces exactly the matches of one left-to-right scan |
| Ssn.ShapeIs | fastapi_backend/app/services/output_guard_service.py:39 | a shape is eleven characters, hyphens at the fourth and seventh, digits at all others |
| Ssn.OccurrencesDisjoint | fastapi_backend/app/services/output_guard_service.py:39 | true SSN occurrences are at least twelve characters apart |
| Ssn.FindFromExact | fastapi_backend/app/services/output_guard_service.py:108 | the scan reports a span if and only if it is a true occurrence |
| SsnStream.HideGains | fastapi_backend/app/services/output_guard_service.py:150-154 | every match in the window of carry and chunk ends up hidden |
| SsnStream.WithinCarry | fastapi_backend/app/services/output_guard_service.py:148-163 | what has been sent ends before an unfinished occurrence: no character of it has been sent |
| SsnStream.CompletedIsMatched | fastapi_backend/app/services/output_guard_service.py:150-154 | a true occurrence that a chunk completes is matched in that window, although the window does not show what was sent before |
| SsnStream.StreamTracks | fastapi_backend/app/services/ai_request_service.py:586-603 | after any number of chunks the text sent plus the carry is the consumed source with SSN-shaped spans hidden, every finished true SSN among them |
| SsnStream.StreamedText | fastapi_backend/app/services/ai_request_service.py:586-654 | for every cutting into chunks the delivered text is the source with disjoint SSN-shaped spans replaced, every true SSN being one of them |
| SsnPass.PassIsExact | fastapi_backend/app/services/output_guard_service.py:98-120 | one pass over a whole text hides exactly the true occurrences |
| SsnPass.NoneLeft | fastapi_backend/app/services/output_guard_service.py:98-120 | a pass leaves no SSN behind and makes none through changed neighbours |
| SsnPass.PassIsIdempotent | fastapi_backend/app/services/output_guard_service.py:98-120 | a second pass changes nothing |
| SsnCuts.StreamIsPass | fastapi_backend/app/services/output_guard_service.py:135-165 | every stream of a text delivers one pass over the whole text, if and only if no SSN shape of the text ends too soon or begins too late |
| SsnCuts.WindowIsExact | fastapi_backend/app/services/output_guard_service.py:150-154 | in such a text every window of carry and chunk hides true SSNs of the consumed text only |
| SsnCuts.TokensAsPass | fastapi_backend/app/services/ai_request_service.py:586-603 | after any number of chunks of such a text, sent text and carry are one pass over what was consumed |
| SsnCuts.SplitOverRedacts | fastapi_backend/app/services/output_guard_service.py:150-163 | a shape that ends too soon: the cut right behind it makes the stream deliver something else than one pass |
| SsnCuts.CarryOverRedacts | fastapi_backend/app/services/output_guard_service.py:156-163 | a shape that begins too late: so does the cut that leaves it at the front of a whole carry |
| SsnDelivered.StreamHoldsNoSsn | fastapi_backend/app/services/output_guard_service.py:135-165 | no stream of a text delivers an SSN, if and only if the text has no two shapes side by side, the first loose and the second late |
| SsnDelivered.DeliveredHoldsNoSsn | fastapi_backend/app/services/ai_request_service.py:586-654 | for every chunking of such a text the delivered text holds no SSN |
| SsnDelivered.ExposedIsDelivered | fastapi_backend/app/services/output_guard_service.py:150-163 | of every other text a stream delivers an SSN, and the lemma builds its chunks |
| SsnDelivered.TwinsAreNeeded | fastapi_backend/app/services/output_guard_service.py:135-165 | a text without two shapes side by side never has an SSN delivered |
| SsnDelivered.WindowTraced | fastapi_backend/app/services/output_guard_service.py:150-163 | a window hides what nothing keeps from being hidden, and hides behind a shown word character only where the carry began |
| SsnDelivered.SsnIsExposed | fastapi_backend/app/services/output_guard_service.py:150-163 | an SSN in what is delivered stands in front of a shape that was hidden when the carry began with it |
| SsnCuts.DeliveredHoldsSsn | fastapi_backend/app/services/output_guard_service.py:150-163 | two shapes side by side: the second is replaced and makes an SSN of the first, which has been sent |
| SsnCuts.ChunkBoundaryOverRedacts | fastapi_backend/app/services/output_guard_service.py:150-163 | a concrete stream that replaces eleven characters of a longer number |
| SsnCuts.MoreHidden | fastapi_backend/app/services/output_guard_service.py:113-118 | of two renderings of one source, the one that hides more spans is longer |
| EventStream.EventStream | fastapi_backend/app/services/ai_request_service.py:566-697 | which frames are sent, one for each token that releases text and one for the flush, what text each carries, and which statuses are written, for every provider behaviour and every combination of failing side effects |
| EventStream.FramesKeepUp | fastapi_backend/app/services/ai_request_service.py:586-603 | after any number of tokens the frames sent by then say exactly the text released by then |
| EventStream.FramePerToken | fastapi_backend/app/services/ai_request_service.py:599-603 | a token that releases text is answered at once by one frame with exactly that text, any other by none |
| EventStream.FrameCount | fastapi_backend/app/services/ai_request_service.py:567-654 | the number of token frames: the pulse, one for each token that releases text, one for a flush that has text |
| EventStream.FinishRun | fastapi_backend/app/services/ai_request_service.py:605-684 | the done branch flushes the redacted carry before the metadata frame, or leaves by an exception with nothing of it sent |
| EventStream.RunProtocol | fastapi_backend/app/services/ai_request_service.py:566-697 | with status writes that succeed and a provider that concludes: the empty pulse, non-empty token frames, one terminal frame last; received, streaming if a token came, then completed exactly with the metadata frame, which carries the usage of the done chunk, else failed |
| EventStream.OneTerminalFrame | fastapi_backend/app/services/ai_request_service.py:656-697 | exactly one terminal frame is sent if and only if the run finishes and the completed status was not the write that failed |
| EventStream.GeminiStream | fastapi_backend/app/services/ai_request_service.py:197-216 | the pieces of a full answer are 48 long, the last one at most, join to the answer, and one done chunk with the usage follows |
| SseClient.SplitMore | frontend/src/components/AIChat.jsx:279-283 | for every text, splitting the kept tail with the new text continues the split of everything received |
| SseClient.SplitJoins | frontend/src/components/AIChat.jsx:282 | the events with blank lines between them are the text again, and none of them has a blank line in it |
| SseClient.LinesJoin | frontend/src/components/AIChat.jsx:286-287 | the lines of an event make it up again, and none of them has a newline |
| SseClient.DataLineIsFirst | frontend/src/components/AIChat.jsx:286-293 | the payload is what follows the prefix on the first line that begins with it |
| SseClient.WireSplits | frontend/src/components/AIChat.jsx:282-289 | the wire text of newline-free payloads splits into exactly those payloads and an empty tail |
| SseClient.OnTheWire | fastapi_backend/app/services/ai_request_service.py:567 | what one frame looks like on the wire |
| SseClient.ReceivedSoFar | frontend/src/components/AIChat.jsx:251-289 | after any chunks the loop has found the payloads, and kept the tail, that splitting all their text at once gives |
| SseClient.FramesRecovered | frontend/src/components/AIChat.jsx:251-296 | for every chunking the loop ends with the payloads that were sent, once each, in order, and an empty buffer |
| Chat.ReadIsWhole | frontend/src/components/AIChat.jsx:276-371 | chunk by chunk the page shows what dispatching the whole response at once would, and keeps the same tail |
| Chat.ReadStream | frontend/src/components/AIChat.jsx:251-371 | the incremental loop, which stops at an error event, ends in that state |
| Chat.FirstEvents | frontend/src/components/AIChat.jsx:298-317 | an error before any token gets a bubble of its own, an event without token, end or error changes nothing |
| Chat.NoiseIsSkipped | frontend/src/components/AIChat.jsx:291-296 | a payload that does not parse makes no difference, wherever it stands |
| Chat.Displayed | frontend/src/components/AIChat.jsx:285-370 | after a completed run one sealed answer holds exactly the delivered text |
| Chat.DisplayedOnFailure | frontend/src/components/AIChat.jsx:298-311 | after a failed run the answer is the apology, marked as an error, also where it overwrites a complete answer that was sealed before |
| Chat.DisplayedUnfinished | frontend/src/components/AIChat.jsx:314-329 | after a run without a terminal frame the bubble stays open with the text sent so far |
| Chat.DisplayedIsRedacted | fastapi_backend/app/services/ai_request_service.py:566-697 | from provider tokens to screen: the page shows the provider's text with disjoint SSN-shaped spans replaced, every true SSN among them |
| Chat.DisplayedIsPass | fastapi_backend/app/services/ai_request_service.py:566-697 | if no shape of the provider's text ends too soon or begins too late, the page shows one pass over it, and no SSN |
| Chat.DisplayedHoldsNoSsn | fastapi_backend/app/services/ai_request_service.py:566-697 | unless the provider's text has two shapes side by side, the first loose and the second late, the page shows no SSN |
| Chat.DisplayedIsSource | fastapi_backend/app/services/ai_request_service.py:586-654 | when no window is changed by redaction the page shows the concatenated provider tokens |
| BoundedQueue.PushRefines | kong-logger/util/bounded_queue.js:42-73 | a push is one step of a single counter with capacity concurrency plus size |
| BoundedQueue.SettleRefines | kong-logger/util/bounded_queue.js:58-73 | so is a worker settling, failed or not |
| BoundedQueue.RunRefines | kong-logger/util/bounded_queue.js:42-73 | for every interleaving the queue state is a function of the accepted items and the number finished; started items are a prefix of the accepted ones |
| BoundedQueue.RunInvariants | kong-logger/util/bounded_queue.js:42-73 | capacity, work conservation, pushed = dropped + queued + in flight + finished, and starts in accepted order |
| BoundedQueue.DropIffFull | kong-logger/util/bounded_queue.js:43-52 | an item is dropped if and only if both bounds are full |
| BoundedQueue.DrainsExactly | kong-logger/util/bounded_queue.js:58-73 | without pushes the queue is empty after exactly queued plus in-flight completions, not before |
| BoundedQueue.Queue.Push | kong-logger/util/bounded_queue.js:42-56 | the method takes the counter's step and answers whether the item was accepted |
| BoundedQueue.Queue.Settle | kong-logger/util/bounded_queue.js:68-71 | releasing a worker takes the counter's step |
| BoundedQueue.Queue.Create | kong-logger/util/bounded_queue.js:22-40 | construction fails exactly for non-positive bounds |
| BoundedQueue.Queue.Meanwhile | kong-logger/util/bounded_queue.js:88 | the events of a pause happen one after the other, a worker settling only if one is in flight |
| BoundedQueue.Queue.DrainAndWait | kong-logger/util/bounded_queue.js:83-90 | true exactly if nothing is outstanding at some reading of the clock with all readings before it within the time-out, and at the first such reading; else false, at the first reading past the time-out |
| Luhn.LuhnCheck | fastapi_backend/app/services/content_inspector_service.py:70-81 | the loop over reversed digits decides the weighted sum modulo ten |
| Luhn.LuhnFromEnd | frontend/src/hooks/useMessageGuard.js:54-64 | the loop by index from the end decides the same, for 13 to 19 digits |
| Luhn.FormsAgree | fastapi_backend/app/services/output_guard_service.py:60-70 | both forms agree on all digit strings of 13 to 19 characters |
| Luhn.DoubledIsDigitSum | fastapi_backend/app/services/content_inspector_service.py:75-79 | what a doubled digit adds is the sum of the digits of its double |
| Luhn.LastTwo | fastapi_backend/app/services/content_inspector_service.py:75-80 | the last digit counts as it is, the one before it doubled, and so on with the rest |
| Luhn.TestCardIsLuhn | fastapi_backend/app/services/content_inspector_service.py:70-81 | a published test number is accepted |
| Luhn.DigitsRead | frontend/src/hooks/useMessageGuard.js:55 | digits are read one by one, everything else is skipped |
| Luhn.SingleChangeDetected | fastapi_backend/app/services/content_inspector_service.py:70-81 | every change of one digit is detected |
| Luhn.SwapDetected | fastapi_backend/app/services/content_inspector_service.py:70-81 | a swap of neighbours goes undetected if and only if they are equal or 0 and 9 |
| Luhn.CheckDigitUnique | fastapi_backend/app/services/content_inspector_service.py:70-81 | exactly one last digit completes any prefix |
| Iban.Remainder | fastapi_backend/app/services/content_inspector_service.py:103-107 | nine digits at a time gives the remainder of the whole number, or the error of `int` |
| Iban.Mod97Check | fastapi_backend/app/services/content_inspector_service.py:84-107 | for every text: rejected if it has not 15 to 34 characters or one that is no digit or letter, a ValueError if a digit is not decimal, else accepted if the number leaves 1 modulo 97 |
| Iban.CheckedIsAccepted | fastapi_backend/app/services/content_inspector_service.py:84-107 | on ASCII it never raises and accepts exactly what the standard accepts |
| Iban.LetterValues | fastapi_backend/app/services/content_inspector_service.py:97 | A has value 10 and each next letter one more, up to 35 |
| Iban.BritishIsAccepted | fastapi_backend/app/services/content_inspector_service.py:84-107 | the British example of the registry is accepted |
| Iban.NorwegianIsAccepted | fastapi_backend/app/services/content_inspector_service.py:84-107 | so is the Norwegian one, in lower case and in groups |
| Iban.RaisesIff | fastapi_backend/app/services/content_inspector_service.py:94-106 | it raises if and only if length and characters are legal and some digit is not decimal |
| Iban.BlanksAndCase | fastapi_backend/app/services/content_inspector_service.py:86 | blanks and the case of letters make no difference |
| Iban.SingleChangeDetected | fastapi_backend/app/services/content_inspector_service.py:84-107 | replacing a character by another of its kind is detected |
| Iban.SwapDetected | fastapi_backend/app/services/content_inspector_service.py:84-107 | swapping two different neighbours of one kind in the rearranged text is detected |
| Iban.CheckPairUnique | fastapi_backend/app/services/content_inspector_service.py:84-107 | exactly one check pair in 02..98 fits a country and an account part |
| Cache.KeysSeparate | intent_classifier_service/app/cache_layer.py:56-59 | two requests share a key if and only if the digests of their texts and their tenant names are the same; so if and only if the texts are, where the two do not collide |
| Cache.TenantNames | intent_classifier_service/app/cache_layer.py:56-59 | the name of a tenant is what stands between its white space; without a tenant, or with white space only, it is "default" |
| Cache.TenantsAreSeparate | intent_classifier_service/app/cache_layer.py:56-59 | requests of differently named tenants never share a key |
| Cache.HitIsLatest | intent_classifier_service/app/cache_layer.py:74-123 | in every run whose sets are safe, with Redis writes that succeed among them, a hit is the latest value set, whatever expires and whichever reads fail |
| Cache.CoherentIffGuarded | intent_classifier_service/app/cache_layer.py:74-123 | neither tier ever holds a stale value if and only if every set of the run is safe: it writes Redis, or Redis holds nothing else for the key |
| Cache.SetKeepsCoherence | intent_classifier_service/app/cache_layer.py:108-123 | a set leaves no stale value if and only if its write succeeds or Redis holds nothing else for the key |
| Cache.StaleAfterFailedWrite | intent_classifier_service/app/cache_layer.py:120-123 | a run in which one failed write leads to a stale hit |
| Cache.TouchRecent | intent_classifier_service/app/cache_layer.py:68-72 | touching and then trimming commutes with trimming first |
| Cache.RecencyIsByTouch | intent_classifier_service/app/cache_layer.py:61-123 | the recency list holds every key ever set once, with its latest value, in the order of last touch |
| Cache.LruIsMostRecent | intent_classifier_service/app/cache_layer.py:61-123 | when nothing is lost the LRU holds exactly the most recently touched keys in order, and a smaller cache is the recent end of a larger one |
| Cache.ClassificationCache.Get | intent_classifier_service/app/cache_layer.py:74-106 | both tiers, the touch, and the reload from Redis |
| Cache.ClassificationCache.Set | intent_classifier_service/app/cache_layer.py:108-123 | the entry becomes the most recent one, the oldest ones leave, Redis is written unless the call fails |
| Cache.ClassificationCache.LruSet | intent_classifier_service/app/cache_layer.py:68-72 | assignment, move to the end and eviction leave the most recent entries |
| FlattenDict.InsertFails | fastapi_backend/app/api/admin/gateway_plugins.py:103-109 | storing a key raises if and only if a scalar sits on a proper prefix of its path |
| FlattenDict.StoreKey | fastapi_backend/app/api/admin/gateway_plugins.py:103-109 | the walk with the cursor stores the value at the key's path, creating the dictionaries on the way |
| FlattenDict.Unflatten | fastapi_backend/app/api/admin/gateway_plugins.py:94-110 | the keys are stored one after the other in the dictionary's order |
| FlattenDict.SkippedDoesNotCount | fastapi_backend/app/api/admin/gateway_plugins.py:101-102 | an empty string or a null makes no difference, wherever its key stands |
| FlattenDict.StoredLast | fastapi_backend/app/api/admin/gateway_plugins.py:103-109 | any other value stored last is at the place that its key names |
| FlattenDict.DottedParts | fastapi_backend/app/api/admin/gateway_plugins.py:103 | the parts of a key are what stands between its dots |
| FlattenDict.OrderIndependent | fastapi_backend/app/api/admin/gateway_plugins.py:94-110 | the result is the same for all orders of prefix-free keys |
| FlattenDict.OrderMatters | fastapi_backend/app/api/admin/gateway_plugins.py:94-110 | the order does not matter if and only if no stored key is a dotted prefix of another |
| FlattenDict.FallingWorks | fastapi_backend/app/api/admin/gateway_plugins.py:94-110 | with longer paths first unflattening always succeeds |
| FlattenDict.EveryOrderWorks | fastapi_backend/app/api/admin/gateway_plugins.py:94-110 | every order succeeds if and only if no stored key is a dotted prefix of another |
| FlattenDict.Flatten | fastapi_backend/app/api/admin/gateway_plugins.py:82-92 | every leaf gets its dotted key, and every key comes from a leaf with that value |
| FlattenDict.RoundTrip | fastapi_backend/app/api/admin/gateway_plugins.py:82-110 | unflattening the flat form gives the configuration back if and only if it has no dotted key, no empty sub-dictionary and no empty or null leaf |
| Policy.EvaluateLocal | fastapi_backend/app/services/policy_service.py:493-555 | denies if and only if a policy that names no other sensitivity or tenant forbids the service: DenyAll, DenyCloud on cloud, AllowOnpremOnly off on-prem; names the first of these with its own description and lists the verdicts of the policies in force up to it |
| Policy.OthersDoNotCount | fastapi_backend/app/services/policy_service.py:541-555 | a policy that names another sensitivity or tenant makes no difference to the local answer |
| Policy.LocalIsMeant | fastapi_backend/app/services/policy_service.py:493-555 | the specification of the local answer, in the fields of policy and context |
| Policy.EvaluateWithOpa | fastapi_backend/app/services/policy_service.py:391-424 | denies if and only if OPA does not allow and lists a known policy, and names the first of these; lists as denied what OPA lists, as allowed the other policies in force |
| Policy.OthersDoNotCountInOpa | fastapi_backend/app/services/policy_service.py:396-414 | a policy that names another sensitivity or tenant and is not listed has no verdict there |
| Policy.OpaIsMeant | fastapi_backend/app/services/policy_service.py:371-424 | the specification of the answer through OPA, in the fields of policy and context |
| Policy.AgreeIff | fastapi_backend/app/services/policy_service.py:371-424 | the paths agree if and only if OPA's first listed policy is the first that blocks, and OPA does not allow when there is one |
| Policy.FaithfulAgrees | fastapi_backend/app/services/policy_service.py:493-555 | a right answer of OPA makes both paths allow identically, or deny naming the same first policy with the local results a prefix |
| Fingerprint.HashIgnoresOrder | fastapi_backend/app/services/policy_service.py:267-295 | permuting the policies does not change the hash |
| Fingerprint.HashIdentifies | fastapi_backend/app/services/policy_service.py:267-295 | hashes are equal if and only if version and policies are, where the two encodings do not collide |
| PolicySync.PolicyService.BeginSync | fastapi_backend/app/services/policy_service.py:154-178 | the cache follows the database before OPA does; from then until the answer the service counts as in sync exactly when the new content hashes like what was accepted last |
| PolicySync.RowCounts | fastapi_backend/app/services/policy_service.py:156-171 | a row that is inactive or does not parse makes no difference, any other adds its policy at its place |
| PolicySync.PolicyService.OpaStores | fastapi_backend/app/services/policy_service.py:223-234 | when OPA takes the new document before its answer arrives, in sync still means that OPA holds what the cache holds |
| PolicySync.PolicyService.FinishSync | fastapi_backend/app/services/policy_service.py:182-210 | in sync exactly when the push was accepted; strict mode raises exactly on a failed push |
| PolicySync.PolicyService.SyncFromDb | fastapi_backend/app/services/policy_service.py:138-221 | the cache always follows the database; in sync afterwards exactly when the push was accepted; strict mode raises exactly on a failed push |
| PolicySync.PolicyService.InSyncIsSame | fastapi_backend/app/services/policy_service.py:362-367 | in sync means that OPA holds the same policies and version as the cache, after every sequence of syncs and evaluations, and also while a push waits for its answer |
| PolicySync.PolicyService.AskOpa | fastapi_backend/app/services/policy_service.py:318-334 | in fail-closed mode OPA is asked only in sync, that is while it holds the cached policies |
| PolicySync.PolicyService.TakeReply | fastapi_backend/app/services/policy_service.py:336-351 | the answer is applied to the policies of the moment it arrives; a malformed answer is never an allow, an unreachable OPA only by the fallback |
| PolicySync.PolicyService.EvaluateAsync | fastapi_backend/app/services/policy_service.py:299-351 | the two with no sync in between |
| PolicySync.PolicyService.InSyncAgrees | fastapi_backend/app/services/policy_service.py:330-331 | in sync, a right decision of OPA over its own document is the local verdict |
| RateLimiter.RunExplains | frontend/src/hooks/useMessageGuard.js:116-128 | the pruned list is the recent end of all sends, and what was dropped is older than the window |
| RateLimiter.SixSendsSpanWindow | frontend/src/hooks/useMessageGuard.js:116-128 | six consecutive sends span at least ten seconds in every orderly run |
| RateLimiter.SendExact | frontend/src/hooks/useMessageGuard.js:170-172 | a send keeps every six sends ten seconds apart if and only if they were and fewer than five are recent by then |
| RateLimiter.SixSpanExact | frontend/src/hooks/useMessageGuard.js:116-128 | in every run, orderly or not, six sends span the window if and only if that holds at each send |
| RateLimiter.WaitIsExact | frontend/src/hooks/useMessageGuard.js:119-127 | a later check is limited again exactly while the fifth last recent send is recent; with five recent sends that is the announced wait, with more the announced wait ends no later, and may be too short |
| RateLimiter.NeverMoreThanFive | frontend/src/hooks/useMessageGuard.js:118-119 | in orderly runs the list never exceeds five sends |
| RateLimiter.LateConfirmation | frontend/src/components/AIChat.jsx:124-131 | a message confirmed after another was sent breaks the limit if and only if four or more earlier sends are still recent |
| RateLimiter.SixWithinWindow | frontend/src/components/AIChat.jsx:124-156 | so six sends are let through at any six times less than ten seconds apart |
| RateLimiter.MessageGuard.HandleSend | frontend/src/components/AIChat.jsx:139-156 | a message that is not blocked is limited if five sends are recent, else kept for confirmation if its content warns, else registered; the run stays orderly |
| RateLimiter.MessageGuard.HandleGuardConfirm | frontend/src/components/AIChat.jsx:124-131 | a confirmation keeps the run orderly if and only if nothing was sent since its check, and keeps six sends apart if and only if fewer than five are recent when it comes |
| Quota.RunKeeps | fastapi_backend/app/services/quota_service.py:38-70 | what is charged today plus a full charge for every request in flight stays within the bound; the counter has forgotten nothing of today |
| Quota.DailyBound | fastapi_backend/app/services/quota_service.py:38-70 | no day is charged more than the quota less one plus one full request for each in flight, requests across midnight included, and the expiry never loses a count of the current day |
| Quota.BoundIsReached | fastapi_backend/app/services/quota_service.py:38-70 | some run charges exactly that much |
| Quota.QuotaService.CheckQuota | fastapi_backend/app/services/quota_service.py:38-57 | the answer is yes exactly while less than the quota has been charged today, in all the run so far |
| Quota.QuotaService.IncrementUsage | fastapi_backend/app/services/quota_service.py:59-70 | the charge counts on its day and no other; the counter then shows all that was charged that day, outlives the day, and is within the bound |

## Left out

- SsnStream.StreamedText: the statement is for the SSN rule alone; with the full rule list another rule can consume part of a match in an earlier window. The splice and carry laws in `OutputGuard` hold for all rules.
- OutputGuard.Redact: the reported types are a set; the source sorts the list.
- EventStream.EventStream: a provider that stops without a done chunk gets no flush and no terminal frame, as in the source; the model says so and the protocol lemma leaves that case out. The contents of the metadata frame other than usage are not modelled.
- Chat.ReadStream: UTF-8 decoding is taken as done, and timestamps, cancelling and metadata fields of the message are left out. Decoded events are objects.
- BoundedQueue.Queue.Push: warnings and the item's work are left out; a worker is an event that settles some time.
- FlattenDict.StoreKey: the nested dictionary is a value and the cursor is the path walked so far, so aliasing between dictionaries is not modelled; flat values are scalars, and lists count as scalars.
- Iban.Mod97Check: `upper` and `isdigit` work character by character, as parameters of which only the ASCII part is known. The detection lemmas are about ASCII text.
- Luhn.LuhnCheck: takes digit values; the conversion from characters is in `DigitsOf`.
- Cache.ClassificationCache.Get: time to live is an expiry event; entries that do not parse cannot occur, since only the cache writes them. The cache is connected or not for its whole life.
- PolicySync.PolicyService.SyncFromDb: overlapping syncs are left out, the fields being read again after the push. Time stamps and error texts are left out, and a push error has a text.
- PolicySync.PolicyService.EvaluateAsync: is for no sync between query and answer; `AskOpa` and `TakeReply` allow one. The structural checks of OPA's answer are one case, Malformed; HTTP errors and transport errors are another, Unreachable. The Rego policy is not part of this model.
- Quota.QuotaService.IncrementUsage: one tenant; the quota does not change during a run.
- RateLimiter.MessageGuard.GuardCheck: the content checks before and after the limiter are two flags.
- `submit_json` has no normal return to speak of: its success path reads an undefined name.
- `canonical_service_type`, the schemas, `transform.js`, the intent label rules: true but easy.
- `FileSink`, the Kong and Kubernetes configuration, Keycloak, migrations, metrics, React rendering: input and output without an algorithm to prove.
