# A verified model of the Go SDK's hard core

This project models four components of the Go SDK in Dafny and proves what they are for. Every property is stated for
all inputs, all runs and all interleavings of the model; where a property turns out to hold only under a condition, the
condition is exact and comes with an input that shows why.

* **The event receiver.** The reservation table, a leased delivery with its timer, cancellable context and racing `Ack`
  and `Retry`, the hand-over of a reservation from `Wait` to a delivery, the listener loop racing `Close`, and the
  websocket connection with a background reader per socket. Each is a transition system with one action per lock region,
  channel operation, timer event, network event or server step, over any number of threads, names, sockets and deliveries
  (`Reservations`, `Deliveries`, `Ownership`, `Listeners`, `Connections`); the last two are joined in `Sessions`, where the
  replies of the connection are what the listener takes for receipts, and `SampleRun` follows one joint run from end to
  end. The objects behind the first two are also classes whose methods are proved to take exactly those steps, and the
  retry loop is a method (`Retries`).
* **The strict interaction parser.** UTF-8 and JSON text down to bytes, the surrogate scanner, the decoder's punctuation
  rules, the recursive token reader with a mutable decoder, the budgeted deep copy over an arbitrary heap of maps and
  slices, and the two entry points (`Utf8`, `JsonText`, `Values`, `Reader`, `Decoding`, `Snapshots`, `Envelopes`).
* **Signals and presence.** Message identifiers and reference chains, calendar dates down to the digit, the preparation of
  status signals and of presence probes and answers, and the separate classifier and parsers that must recognise them
  (`References`, `SignalTime`, `Texts`, `Signals`, `Encoded`, `SignalContent`, `SignalAgreement`, `Presence`,
  `PresenceChain`).
* **Payments and trust.** Amounts, validity windows in wrapping 64-bit arithmetic, the nonce preimage, the
  extract-then-pay pipeline, and the group-syntax scanner (`Amounts`, `ValidityWindow`, `NonceBinding`, `EmailPayment`,
  `GroupSyntax`).

What the operations answer is stated a second time, over their inputs and without their own definitions, in modules of their
own: why a listener ends (`ListenerEnds`), where causes and results come from (`DeliveryOutcomes`), what a connection
remembers (`ConnectionGaps`), JSON by its grammar and its characters (`JsonGrammar`, `JsonStrings`), envelopes field by
field (`EnvelopeShapes`), and every verdict and refusal of signals, presence and payments (`SignalVerdicts`,
`SignalRefusals`, `PresenceVerdicts`, `PaymentVerdicts`).

`Outcomes`, `Sequences` and `Texts` hold what the others share. `Examples` exhibits inputs that meet the hypotheses of the
theorems about preparing, answering and paying, and inputs that show the shortcomings listed next.

Run `dafny verify dfyconfig.toml` in this directory to check everything.

## Where the code and what it says differ

* `exchange` closes its socket on every error except those of `update` (sdk-go/event_receiver.go:395-398). After one of
  them the reply to the request is still on its way, and a caller that tried again on the same connection would take it for
  the reply to its next request. `Connections.RetryCrosses` is that run; `Connections.MatchedExactlyWhenUpdateErrorsAreFinal`
  shows that replies stay matched exactly for callers that give up after both errors, which `retryEvent` does.
* The comment at sdk-go/x402.go:448-451 says the floor of the band is always below its ceiling. With a pinned start, or with
  a window cap just above the headroom, it is not, and a window is computed all the same
  (`ValidityWindow.EmptyBandIsNotRefused`); `ValidityWindow.SuccessMeansNearest` and `ValidityWindow.BandIsNonempty` say when.
* A prepared acknowledgement survives the rewriting of its line ends exactly when its note has no CRLF pair, although notes
  with one are accepted (`SignalAgreement.PreparedIsInformational`; `Examples.PairIsLostInTransport` follows such a note).
* `PayEmailChallenge` looks at the shape of the identifiers only after something was signed. For extracted challenges this
  cannot fail (`EmailPayment.NoLateFailure`); for others `EmailPayment.FailsAfterSigningExactly` says when it does, and
  `Examples.RefusedAfterSigning` is such a payment.
* The nonce preimage separates its fields with zero bytes but does not refuse identifiers that contain them
  (`NonceBinding.ZerosMove`); `NonceBinding.CleanStepsAreToldApart` and `NonceBinding.ToldApartExactly` say when bindings are
  told apart.
* The 64 KiB check of signals and the size checks of presence emails can never fail (`SignalAgreement.NeverTooLarge`,
  `PresenceChain.ProbeNeverTooLarge`, `PresenceChain.AliveNeverTooLarge`).

## Model

| member | source | states |
|---|---|---|
| Reservations.ActiveNamesTheLive | sdk-go/event_receiver.go:110-117 | in every state of every run the table holds exactly the names of unreleased reservations, and a name has at most one live owner |
| Reservations.LateReleaseFreesNobodyElse | sdk-go/event_receiver.go:116-117 | no step of a release closure, first, repeated or late, frees a reservation other than its own, whatever its name |
| Reservations.FreedExactlyOnce | sdk-go/event_receiver.go:116-117 | over a whole run a reservation is deleted at most once, and counts as freed exactly when that happened |
| Reservations.EventsResource.Reserve | sdk-go/event_receiver.go:92-117 | succeeds exactly for a good name, good events, a known transport, a capable API and a free name; then it is one reserving step of the table, otherwise nothing changes |
| Reservations.EventsResource.Fire | sdk-go/event_receiver.go:116-117 | the once-guard of a closure lets exactly the first call through and takes one step of the table |
| Reservations.EventsResource.Delete | sdk-go/event_receiver.go:117-117 | the body of the closure removes exactly its own name |
| Deliveries.OutcomeIsChosenOnce | sdk-go/event_receiver.go:533-562 | in every interleaving, a recorded outcome never changes and every completion body carries it |
| Deliveries.NothingIsSentAfterAnEarlyEnd | sdk-go/event_receiver.go:546-549 | if the context ended before a choice was recorded, none is ever recorded, nothing is ever sent and every call reports the cause |
| Deliveries.AnswersMatchTheChoice | sdk-go/event_receiver.go:535-549 | once an outcome is recorded every call that has returned got the stored result if it wanted that outcome and the conflict if it wanted the other, never the cause of the context, which by then has ended |
| Deliveries.NoAnswerBeforeTheChoice | sdk-go/event_receiver.go:535-549 | in a run that ever records an outcome no call returns before it is recorded, and none is given the context's cause |
| Deliveries.SameChoiceSameResult | sdk-go/event_receiver.go:543-544 | any two calls that got a stored result, whenever they returned, got the same one |
| DeliveryOutcomes.CauseIsTheFirst | sdk-go/event_receiver.go:526-561 | the cause of an ended context is that of the first step that ended it: the lease, a completed call, or the parent |
| DeliveryOutcomes.ResultIsTheOutcome | sdk-go/event_receiver.go:554-560 | the stored result is what the exchange of the choosing call came to: the receipt it received, or the very error it gave up with |
| Deliveries.PendingEvent.Decide | sdk-go/event_receiver.go:534-553 | the first lock region is exactly one entering step, and its verdict tells the caller what that step decided |
| Deliveries.PendingEvent.Conclude | sdk-go/event_receiver.go:557-559 | storing the result, closing `done` and cancelling are three consecutive steps of the system |
| Ownership.NeverLostNeverShared | sdk-go/event_receiver.go:563-597 | an unreleased reservation is owned by exactly one of its caller and its one delivery, and nobody else holds its name |
| Ownership.FinishedMeansFreed | sdk-go/event_receiver.go:642-649 | `Wait` returns its error, and a listener signals `done`, only after the name is free |
| Ownership.FreedExactlyOnce | sdk-go/event_receiver.go:526-528 | however timer, context, completion and deferred clean-up race, a reservation is freed once |
| Ownership.ReleasingStepEnabled | sdk-go/event_receiver.go:526-528 | while a delivery holds the name, a step nobody has to ask for is enabled and brings the release nearer |
| Ownership.EveryNameCanBeFreed | sdk-go/event_receiver.go:526-561 | from every reachable state at most eight such steps free a name that a delivery holds |
| Listeners.CloseWakesTheReceive | sdk-go/event_receiver.go:611-626 | once `Close` has passed its lock region every receive in flight is cancelled, and at most one more handler begins, in any interleaving |
| Listeners.NoReceiveAfterClose | sdk-go/event_receiver.go:650-674 | after that no further receive is put in flight |
| Listeners.BodiesFollowTheHandler | sdk-go/event_receiver.go:696-713 | `accepted=true` is written only for a delivery whose own handler returned nil, `accepted=false` only for one whose handler failed |
| Listeners.DroppedMeansHandled | sdk-go/event_receiver.go:432-456 | the queue drops an event only on account of a delivery whose handler returned nil, with completions lost, repeated or late |
| Listeners.NeverDroppedForAFailure | sdk-go/event_receiver.go:689-714 | no run drops an event for a delivery whose handler failed, has not returned, timed out or was cut off |
| Listeners.EndedUnchosenIsCutOff | sdk-go/event_receiver.go:696-699 | a delivery whose context ended before its completion was chosen counts as cut off from then on |
| Listeners.AckedMeansSettled | sdk-go/event_receiver.go:452-455 | with receipts that answer their own delivery, a completion that returned nil has been recorded by the queue with the same outcome |
| ListenerEnds.LoopEndsExactly | sdk-go/event_receiver.go:650-714 | over whole runs, a step ends the loop exactly when it is a look after `Close` or the end of the parent, the pause after the end of the parent, a receive that failed, a rejected offer, a delivery whose context ended before its handler, or a completion that was not recorded |
| ListenerEnds.EndHasACause | sdk-go/event_receiver.go:650-714 | a listener that has ended was ended by one earlier step with one of these causes |
| ListenerEnds.GoesOn | sdk-go/event_receiver.go:650-714 | while none of these has happened the listener goes on, however many events it has handled |
| ListenerEnds.NextRound | sdk-go/event_receiver.go:696-714 | after a completion that was recorded the loop is at its top again |
| ListenerEnds.ReceivesAgain | sdk-go/event_receiver.go:650-674 | from there a listener that nobody closes puts a receive in flight in five steps of its own |
| Sessions.ReceiptsAreReal | sdk-go/event_receiver.go:432-456 | in the listener joined with its connection, nothing told of replies: whatever reply the loop takes for a receipt, the queue has recorded that very completion |
| Sessions.ListenerRuns | sdk-go/event_receiver.go:361-456 | every joint run is a run of the listener's own system, so all that is proved of its runs holds of joint runs |
| Sessions.AckedMeansRecorded | sdk-go/event_receiver.go:432-456 | in joint runs an `Ack` or `Retry` of the loop that returned nil has been recorded with its outcome, and its event dropped if it was accepted |
| SampleRun.AckReturns | sdk-go/event_receiver.go:650-714 | a joint run from the first dial to an `Ack` that returns nil, its event dropped |
| SampleRun.SecondEventIsHandled | sdk-go/event_receiver.go:650-714 | a joint run that goes on from there: the completion returns, a second event is received, and its handler returns too |
| Connections.MatchedExactlyWhenUpdateErrorsAreFinal | sdk-go/event_receiver.go:361-410 | every frame `exchange` returns answers the request it just wrote, in all runs, if and only if the caller gives up after both errors of `update` |
| Connections.RetryCrosses | sdk-go/event_receiver.go:395-398 | a concrete run of a caller that does not, in which a reply is taken for the next request |
| Connections.SdkCallersStayInStep | sdk-go/event_receiver.go:145-147 | with `retryEvent` as the caller every reply answers its request |
| Connections.OnlyTheNewestSocketIsRead | sdk-go/event_receiver.go:295-341 | whatever the caller retries, frames queued by the reader of an earlier socket never surface after a reopen |
| Connections.WritesFindTheSocketClean | sdk-go/event_receiver.go:361-370 | no request is written on a socket with a reply outstanding |
| Connections.GapsAreReportedOnce | sdk-go/event_receiver.go:342-360 | `update` refuses exactly implausible offers, and reports a gap exactly when its count is positive and not the one last reported, whatever came in between |
| ConnectionGaps.GapsAreRemembered | sdk-go/event_receiver.go:342-430 | in every run the gap count a connection compares with is that of the offers it was handed so far, over all its sockets |
| ConnectionGaps.FailuresClose | sdk-go/event_receiver.go:361-410 | a failed exchange leaves its connection without a socket exactly unless the error is that of `update` on an open connection |
| Retries.RetryEvent | sdk-go/event_receiver.go:129-157 | only retryable failures are retried, the last attempt alone decides the result, and each wait is what the server asked for but never below four fifths of the backoff |
| Retries.FinalExactly | sdk-go/event_receiver.go:145-147 | exactly which errors are final: four codes, and statuses below 500 other than 0, 408 and 429 |
| Retries.EndsExactly | sdk-go/event_receiver.go:131-155 | how one attempt decides the loop, for each verdict, and that the wait is the drawn one or the longer one the server asked for |
| Retries.BackoffDoubles | sdk-go/event_receiver.go:143-143 | the backoff starts at 250 milliseconds, doubles five times, and is ten seconds after that |
| Retries.BackoffGrows | sdk-go/event_receiver.go:143-143 | it never shrinks and never exceeds ten seconds |
| JsonText.PairedDecodesExactly | sdk-go/interactions.go:51-94 | decoding a literal replaces a character exactly when its surrogate escapes are not all paired |
| JsonText.InteractionUnicode | sdk-go/interactions.go:52-94 | on all byte strings the index stays in range and only grows, and the answer is UTF-8 validity together with the scan |
| JsonText.ScannerIsExact | sdk-go/interactions.go:56-92 | on the text of any lexemes the byte scan accepts exactly when every literal has its surrogates paired |
| JsonText.AcceptedMeansNothingReplaced | sdk-go/interactions.go:51-94 | every JSON text is valid UTF-8, and is accepted exactly when the decoder substitutes nothing in it |
| JsonStrings.DecodesExactly | sdk-go/interactions.go:51-94 | a literal is decoded to a text with nothing replaced exactly when it spells that text: characters themselves, the eight short escapes, code points and surrogate pairs in hexadecimal |
| Utf8.ValidExactly | sdk-go/interactions.go:52-55 | bytes are valid UTF-8 exactly when they encode some text |
| Values.NumberRoundTrip | sdk-go/interactions.go:40-49 | the text of an accepted number is accepted as the same number |
| Values.NumberExactly | sdk-go/interactions.go:40-49 | a number is accepted exactly when its text has at most 128 characters and the pieces of the grammar, and its value is no integer beyond 2^53 - 1 in either direction |
| Reader.AcceptsExactlyTrees | sdk-go/interactions.go:96-146 | a token stream is accepted exactly when it is the tokenisation of one tree with at most 64 nested containers, no duplicate keys and safe numbers, and the result is that tree |
| Reader.ReadInteractionJson | sdk-go/interactions.go:96-146 | the reader over the stateful decoder consumes and returns exactly what the specification says; it terminates by the tokens left |
| Decoding.EncodeThenDecode | sdk-go/signals.go:86-95 | the text the encoder writes for any tree is decoded to the tokens of that tree, with nothing replaced |
| JsonGrammar.TokensExactlyText | sdk-go/interactions.go:96-146 | a source is decoded to the tokens of a tree exactly when, white space aside, it is a text of that tree in the grammar of RFC 8259 |
| Snapshots.Snapshot | sdk-go/interactions.go:219-273 | for every map order it succeeds exactly when a copy within the depth and the budget exists, returns that copy and leaves the budget minus its weight; over any heap, cyclic or shared, it makes at most budget plus one calls |
| Snapshots.OneCopy | sdk-go/interactions.go:219-273 | the copy does not depend on the order in which maps are walked |
| Values.KeysWeightSplit | sdk-go/interactions.go:239-254 | the closed-form weight of a map is the same in every order |
| Examples.KnownWeight | sdk-go/interactions.go:219-273 | the budget a small value takes: one for each of its values and keys, and the bytes of its texts |
| Envelopes.DecodeShrinks | sdk-go/interactions.go:188-210 | decoding never makes a literal longer than its source |
| Envelopes.ParsedFits | sdk-go/interactions.go:188-273 | what was parsed weighs no more than the bytes of its source and nests within the limit |
| Envelopes.EntryPointsAgree | sdk-go/interactions.go:188-284 | for every source that parses, validating the decoded value gives the same result as parsing the source |
| EnvelopeShapes.CheckedExactly | sdk-go/interactions.go:148-186 | over all decoded values: valid exactly when every field is good, unsupported exactly for a whole version other than 1, otherwise invalid for the one reason; identifiers and white space are spelled out |
| EnvelopeShapes.ParsedExactly | sdk-go/interactions.go:188-210 | the verdicts of the parser over all sources, each by an exact condition |
| EnvelopeShapes.SourceIsJsonText | sdk-go/interactions.go:188-210 | a source has a value exactly when it is at most 64 KiB of JSON, every literal spelling a text, of a tree that nests at most 64 deep, repeats no key and has safe numbers |
| EnvelopeShapes.ValidatedExactly | sdk-go/interactions.go:277-284 | the verdicts of the validator over all heaps, each by an exact condition |
| Envelopes.ParseInteractionEnvelope | sdk-go/interactions.go:188-210 | the entry point is the specification, and a copy of the source accompanies exactly the results that are not invalid |
| Envelopes.ValidateInteractionEnvelope | sdk-go/interactions.go:277-284 | the entry point is the shape check of the one copy that fits, or invalid when none does |
| References.MessageIdIsExact | sdk-go/signals.go:74-83 | an identifier is accepted exactly when it is spaces around a wire identifier, bare or bracketed, and all spellings share one canonical form |
| References.CanonicalIsFixed | sdk-go/signals.go:74-83 | the canonical form of an identifier is its own canonical form |
| References.CollectReferences | sdk-go/signals.go:119-129 | the collecting loop yields the canonical references without the target and then the target, or nothing if one is malformed or too long |
| References.TrimRunningLength | sdk-go/signals.go:130-139 | the running-length loop keeps the longest tail with at most 100 entries and 8192 joined characters |
| References.TrimJoining | sdk-go/presence.go:306-309 | the repeated-join loop keeps that very tail |
| References.CutKeepsTarget | sdk-go/signals.go:119-139 | the tail ends in the target, holds it once, never drops it and has canonical entries only |
| References.CutIsThread | sdk-go/signals.go:119-139 | what is kept is the longest fitting tail of the canonical forms of the input in its order, without the target, followed by the target |
| SignalTime.CivilOfIsRight | sdk-go/signals.go:177-177 | every instant to the end of 9999 has a date that exists and counts back to it |
| SignalTime.InstantIsInjective | sdk-go/presence.go:82-91 | no two dates are the same instant |
| SignalTime.SignalUtcExpiry | sdk-go/signal_content.go:68-87 | accepts exactly the pattern with a date and time that exist from 1970 on |
| SignalTime.FormattedIsRead | sdk-go/signal_content.go:68-87 | every expiry that is written is accepted by the classifier and read back by presence as the same instant |
| SignalTime.ReadIsFormatted | sdk-go/presence.go:82-91 | a timestamp with milliseconds is accepted exactly when some instant is written that way |
| Examples.KnownInstants | sdk-go/signals.go:177-177 | a billion seconds after the epoch and a moment of a leap day are written as the calendar has them |
| Signals.PrepareSignalEmail | sdk-go/signals.go:98-223 | the method with its loops and callbacks is the staged specification; no callback runs before the parent is checked, and a prepared email took one clock reading and two identifiers |
| Signals.SendPreparedSignal | sdk-go/signals.go:227-247 | at most one attempt, always with the prepared body and key, exactly when the account matches and the signal has not expired; each local refusal exactly for its reason |
| SignalRefusals.PreparedExactly | sdk-go/signals.go:98-223 | a signal is prepared exactly when heading, callbacks, clock, content and identifiers are in order, and otherwise refused for the first that is not |
| SignalRefusals.HeadingExactly | sdk-go/signals.go:98-129 | each reason for refusing the heading, by an exact condition on the fields |
| SignalRefusals.ContentExactly | sdk-go/signals.go:151-181 | each reason for refusing what the kind of signal asks for, by an exact condition on the fields |
| Decoding.QuoteDecodes | sdk-go/signals.go:86-95 | a quoted string decodes to itself |
| Encoded.EncodeThenParse | sdk-go/interactions.go:188-210 | an acceptable tree that fits survives the encoder and the parser |
| Encoded.EncodedBytes | sdk-go/signals.go:86-95 | an encoding is no longer than a bound of six bytes a UTF-16 unit and its punctuation |
| SignalContent.SignalExactKeys | sdk-go/signal_content.go:50-67 | true exactly when all required keys are there and nothing but required and optional ones |
| SignalContent.ClassifySignalContent | sdk-go/signal_content.go:181-241 | the method with its loop is the classification, reason by reason |
| SignalContent.InformationalExactly | sdk-go/signal_content.go:181-241 | an email is informational exactly when its one part is the interaction as JSON, a valid envelope that stands for a text, there is no HTML, and the text body is that text |
| SignalVerdicts.InventoryExactly | sdk-go/signal_content.go:181-206 | each reason that the inventory alone decides, by an exact condition over its parts |
| SignalVerdicts.JudgedExactly | sdk-go/signal_content.go:206-241 | each reason that attachment, content type and bodies decide, by an exact condition |
| SignalVerdicts.ReasonsSayWhich | sdk-go/signal_content.go:181-241 | the classification that goes with each reason, and exactly when the parsed interaction is reported |
| SignalVerdicts.FallbackExactly | sdk-go/signal_content.go:99-177 | a valid envelope stands for a text exactly when its fields say so: keys, versions, steps, identifiers, expiry and payload, for repeat-stop notices and for the four status signals |
| SignalVerdicts.JsonExactly | sdk-go/signal_content.go:218-221 | which content types are JSON: the name in any case, blanks around it, and whatever parameters |
| SignalAgreement.PreparedAnswersParent | sdk-go/signals.go:98-223 | what is prepared is one reply to the parent: addresses turned round, subject kept, header, chain and payload name it, the references are the thread of the input, and key, identifiers and expiry of the record are those the envelope parses to |
| SignalAgreement.PreparedIsRecognised | sdk-go/signal_content.go:119-177 | everything prepared parses to a valid envelope whose fallback text is the body it was prepared with |
| SignalAgreement.ArrivalIsExact | sdk-go/signal_content.go:181-241 | a prepared email arriving with any body whatever is informational exactly when the body matches its own |
| SignalAgreement.PreparedIsInformational | sdk-go/signals.go:98-223 | every prepared email is informational from its own attachment and body; for each way transport changes line ends, exactly which notes keep it so |
| SignalAgreement.NeverTooLarge | sdk-go/signals.go:197-203 | the earlier checks imply the size check, so an email is prepared exactly when heading, content and identifiers are good |
| Texts.NormalisedCrlf | sdk-go/signal_content.go:232-233 | normalising undoes the rewriting of line ends, whatever follows |
| Presence.PreparePresenceAliveEmail | sdk-go/presence.go:273-329 | the method with its loops and its local copy of the probe is the staged specification |
| PresenceVerdicts.ReadExactly | sdk-go/presence.go:118-148 | the verdicts of the presence parser, each by an exact condition: read exactly when a small source parses and says, in nine fields, what a well-formed envelope says |
| PresenceVerdicts.ShapeExactly | sdk-go/presence.go:96-117 | the shape check accepts exactly the well-formed envelopes, field by field |
| PresenceVerdicts.ProbeExactly | sdk-go/presence.go:240-270 | a probe is prepared exactly when addresses, clock, identifiers and nonce are good, and refused otherwise |
| PresenceVerdicts.ProbeSays | sdk-go/presence.go:201-270 | whose probe it is, its text, key and times, and in its attachment the identifiers, nonce and address it was prepared with |
| PresenceVerdicts.AliveExactly | sdk-go/presence.go:273-329 | an answer is prepared exactly when parent, references, addresses, probe, clock and identifier are good, waits without a parent, and is refused otherwise |
| PresenceVerdicts.AliveSays | sdk-go/presence.go:273-329 | the text, key, times and thread of an answer, and in its attachment the probe one step on |
| PresenceChain.ProbeHasShape | sdk-go/presence.go:96-117 | every probe prepared has the shape the readers demand |
| PresenceChain.AliveHasShape | sdk-go/presence.go:322-328 | every answer has the shape and is the next step of the same interaction with a new identifier |
| PresenceChain.WrittenIsRead | sdk-go/presence.go:118-148 | an envelope of the right shape is read back from its own encoding |
| PresenceChain.CarrierFits | sdk-go/presence.go:191-239 | with addresses, target and references checked, the carrier budget cannot be exceeded |
| PresenceChain.ProbeNeverTooLarge | sdk-go/presence.go:240-270 | a probe is prepared exactly when its context and the callbacks' answers are good |
| PresenceChain.AliveNeverTooLarge | sdk-go/presence.go:273-329 | an answer is never refused for its size: it is prepared exactly when parent, addresses, probe, references and identifier are good |
| PresenceChain.AnyProbeIsAnswered | sdk-go/presence.go:273-329 | every probe that is prepared can be answered by its recipient, to any parent with a good identifier |
| PresenceChain.ProbeThenAlive | sdk-go/presence.go:240-329 | the whole exchange: the probe is read back, and any answer to it is read back as its next step with the same nonce and expiry, with a trimmed chain ending in the parent |
| Examples.PairIsLostInTransport | sdk-go/signal_content.go:232-237 | an acknowledgement whose note holds a CRLF pair is prepared, informational as it left, and not informational once its line ends are rewritten |
| Examples.ProbeIsAnswered | sdk-go/presence.go:240-329 | a probe that is prepared, and an answer to it that is prepared |
| Amounts.BaseUnitsAreExact | sdk-go/x402.go:75-97 | an amount is converted exactly when it has the syntax, at most six decimals and a positive worth, and then without rounding |
| Amounts.DecimalOfValue | sdk-go/x402.go:1380-1383 | reading an amount and writing it out again gives the same text |
| Amounts.ConvertedExactly | sdk-go/x402.go:75-97 | the base units over a million are the digits of the amount over the power of ten its point stands for; too precise and not positive exactly as the digits say |
| Amounts.NotAnAmountExactly | sdk-go/x402.go:75-80 | exactly which texts are no amounts |
| Amounts.IntegerIsShown | sdk-go/interactions.go:235-238 | an integer is written with a minus sign exactly when negative and digits without leading zeros that are worth it |
| ValidityWindow.SuccessMeansNearest | sdk-go/x402.go:413-489 | a success starts where asked with positive width; its end is the nearest point of the band, and re-pinning it without clamping reproduces it, exactly when the band is nonempty |
| ValidityWindow.SucceedsExactly | sdk-go/x402.go:413-489 | over a nonempty band, exactly when a window is computed |
| ValidityWindow.EndsExactly | sdk-go/x402.go:413-453 | start, end and band in the fields of the input, up to what 64 bits keep |
| ValidityWindow.RefusedExactly | sdk-go/x402.go:431-486 | each reason for computing no window, by an exact condition |
| ValidityWindow.BandIsNonempty | sdk-go/x402.go:448-453 | when nothing wraps, the band is nonempty exactly when headroom, and with a derived start also the skew, fit under the cap |
| ValidityWindow.EmptyBandIsNotRefused | sdk-go/x402.go:448-453 | two inputs with an empty band for which a window outside it is computed |
| ValidityWindow.DefaultsNeverFail | sdk-go/x402.go:413-489 | the default settings give a window 60 to 86100 seconds ahead for every expiry and every clock that leaves room for it |
| ValidityWindow.DefaultsExactly | sdk-go/x402.go:413-489 | over all 64-bit clocks and expiries, exactly when the default settings succeed |
| NonceBinding.DeriveEip3009Nonce | sdk-go/x402.go:127-143 | derived exactly for a well-formed challenge nonce, the result spells digit by digit the hash of the identifiers in lower case, a zero byte after each, and the bytes the challenge nonce spells |
| NonceBinding.CleanStepsAreToldApart | sdk-go/x402.go:127-143 | for step identifiers without a zero character, equal bytes are hashed exactly for bindings equal up to case |
| NonceBinding.ZerosMove | sdk-go/x402.go:134-139 | moving a zero character and what follows it from one field to the other changes nothing that is hashed |
| NonceBinding.ToldApartExactly | sdk-go/x402.go:127-143 | a binding is told apart from all others exactly when neither identifier holds a zero character |
| EmailPayment.PaysExactly | sdk-go/x402.go:1351-1432 | over all challenges and signers, exactly when a payment succeeds |
| EmailPayment.NoLateFailure | sdk-go/x402.go:1281-1432 | an extracted challenge that is supported and lies ahead is paid as soon as the signer returns a 65-byte signature |
| EmailPayment.FailsAfterSigningExactly | sdk-go/x402.go:1421-1430 | exactly when a payment fails after something was signed for its identifiers |
| PaymentVerdicts.ExtractedExactly | sdk-go/x402.go:1281-1340 | a challenge is extracted exactly when envelope and terms are in order, and otherwise refused for the first thing that is not |
| PaymentVerdicts.ChallengeExactly | sdk-go/x402.go:1223-1245 | a challenge is refused for the first thing that is asked of it and not there |
| PaymentVerdicts.RefusedExactly | sdk-go/x402.go:1351-1395 | each reason for refusing a payment before anything is signed, by an exact condition |
| PaymentVerdicts.UnsignedExactly | sdk-go/x402.go:1396-1420 | each reason for refusing it once the signer is asked, by an exact condition |
| EmailPayment.PaymentIsBound | sdk-go/x402.go:1351-1432 | the step keeps the interaction, answers the challenge step, and carries the required amount, payee and network, a window with room to settle, the nonce spelled out from the hash, and the signature over exactly that authorization in the domain of the terms |
| Examples.RefusedAfterSigning | sdk-go/x402.go:1421-1430 | a challenge with the identifier `x` passes the checks, is signed for, and is then refused |
| Examples.ExtractedIsPaid | sdk-go/x402.go:1281-1432 | the same challenge with a proper identifier is extracted from its attachment and paid |
| GroupSyntax.ContainsGroupDelimiter | sdk-go/trust.go:94-117 | the loop over three variables is the scan |
| GroupSyntax.ScannerMatchesGrammar | sdk-go/trust.go:94-117 | for every header built from characters, quoted strings and nested comments, true exactly when a colon stands at the top level |
| GroupSyntax.ScannerIsExact | sdk-go/trust.go:94-117 | for every string whatever, true exactly when a colon follows a well-formed beginning |
| GroupSyntax.StrictSucceedsExactly | sdk-go/trust.go:124-144 | over every address parser, the strict parser succeeds exactly on a nonempty header of at most 998 bytes with no colon at its top level whose address list is one acceptable entry, and gives that entry lowered |
| GroupSyntax.GroupsAreRefused | sdk-go/trust.go:124-144 | a header with a group anywhere at its top level is refused as invalid before addresses are counted |

## Left out

* Threads on a shared heap: interleavings are modelled as transition systems over values, with one action per atomic step; a
  race below the granularity of a lock region, a channel operation or an atomic pointer is not modelled.
* HTTP, websocket and TLS mechanics, URL building, the `poll` transport and generated API code; the server is a step that may
  reply, delay or lose a reply.
* Wall-clock durations other than the waits between retries: timers and timeouts are events that may happen at any time.
* Hashing and signatures: Keccak is a function to 32 bytes, the signer a function to a text; claims are about the bytes hashed
  and the authorization signed.
* Cutting the bytes of a JSON text into its lexemes, and conversion between floats and text: a source is the list of its
  lexemes, and formatting and parsing a number are assumed to be inverse.
* Invalid UTF-8 in the texts callers pass to the signal and presence preparations; the code refuses it in every such field.
* Lower case of non-ASCII letters, except in the nonce, where folding is any character-wise function.
* The JSON text of the send request and the base64 of its attachment: a request is a record, an attachment the lexemes of its
  envelope. The JSON text of the payment step likewise.
* Reading RFC 3339 timestamps with offsets in `PayEmailChallenge`: reading a timestamp is a parameter there.
* `Retries.RetryEvent`: the jitter is any number in its range rather than a random float, and a run is followed for as long as
  its script of attempts lasts, since the loop itself need not end.
* Subject lines of presence emails, status callbacks, error texts and the wording of refusals.
* `IsTrustedSender`, `hasSubdomainIdentity`, spend policies, charges and the other API calls: each is settled by reading one
  branch at a time.
