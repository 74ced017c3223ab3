/** When a signal is prepared and when it is refused, for each reason, over the fields of the input. */
module SignalRefusals {
  import opened Outcomes
  import opened References
  import opened Signals
  import Sa = SignalAgreement
  import St = SignalTime
  import Tx = Texts
  import Es = EnvelopeShapes

  predicate Asked(input: Input) {
    input.messageId.Some? && input.messageId.value != ""
  }

  predicate Addressed(input: Input) {
    Header(input.from, 320) && Mailbox(input.from) && Header(input.to, 320) && Mailbox(input.to)
  }

  predicate Titled(input: Input) {
    Header(input.subject, 998) && Header(input.accountScope, 256) && input.accountScope != ""
  }

  ghost predicate Referenced(input: Input) {
    |input.references| <= 1000 && forall i :: 0 <= i < |input.references| ==> MessageId(input.references[i]).Some?
  }

  /** Everything that is checked before a callback runs. */
  ghost predicate Headed(input: Input) {
    && Asked(input) && MessageId(input.messageId.value).Some?
    && Addressed(input) && Titled(input) && Referenced(input)
  }

  predicate Clocked(ms: int) {
    0 <= ms <= 253402300799999
  }

  predicate Noted(input: Input) {
    input.note.Some? ==> Tx.Utf16Length(input.note.value) <= 2000 && '\0' !in input.note.value
  }

  predicate Soon(input: Input, now: int) {
    && input.expiresAtMs.Some? && Clocked(input.expiresAtMs.value)
    && now < input.expiresAtMs.value <= now + 60000
  }

  predicate Described(input: Input, now: int) {
    || (input.kind == "ack" && input.status in {"received", "will_process", "will_not_process"} && Noted(input))
    || input.kind == "read"
    || (input.kind in {"working", "typing"} && Soon(input, now))
  }

  predicate Identified(first: string, second: string) {
    Es.UuidText(Tx.Lower(first)) && Es.UuidText(Tx.Lower(second)) && Tx.Lower(first) != Tx.Lower(second)
  }

  lemma HeadingExactly(input: Input)
    requires Asked(input)
    ensures HeadingOf(input).Success? <==> Headed(input)
    ensures HeadingOf(input).Success? ==> MessageId(input.messageId.value) == Some(HeadingOf(input).value.target)
    ensures var target := MessageId(input.messageId.value);
            && (HeadingOf(input) == Failure(BadMailbox) <==> target.Some? && !Addressed(input))
            && (HeadingOf(input) == Failure(BadSubjectOrScope) <==> target.Some? && Addressed(input) && !Titled(input))
            && (HeadingOf(input) == Failure(TooManyReferences) <==>
                  target.Some? && Addressed(input) && Titled(input) && |input.references| > 1000)
            && (HeadingOf(input) == Failure(BadMessageId) <==>
                  || target.None?
                  || (&& Addressed(input) && Titled(input) && |input.references| <= 1000
                      && exists i :: 0 <= i < |input.references| && MessageId(input.references[i]).None?))
            && (HeadingOf(input).Failure? ==>
                  HeadingOf(input).error in {BadMailbox, BadSubjectOrScope, TooManyReferences, BadMessageId})
  {
    hide MessageId, Header, Mailbox, Chain, Fits, TargetLastAndOnce, Thread, Cut;
    if MessageId(input.messageId.value).Some? {
      ChainExactly(input.references, MessageId(input.messageId.value).value);
    }
  }

  lemma ContentExactly(input: Input, now: int)
    ensures ContentOf(input, now).Success? <==> Described(input, now)
    ensures var ack := input.kind == "ack";
            var named := input.status in {"received", "will_process", "will_not_process"};
            && (ContentOf(input, now) == Failure(BadStatus) <==> ack && !named)
            && (ContentOf(input, now) == Failure(BadNote) <==> ack && named && !Noted(input))
            && (ContentOf(input, now) == Failure(BadExpiry) <==>
                  input.kind in {"working", "typing"} && !Soon(input, now))
            && (ContentOf(input, now) == Failure(BadKind) <==> input.kind !in {"ack", "read", "working", "typing"})
            && (ContentOf(input, now).Failure? ==>
                  ContentOf(input, now).error in {BadStatus, BadNote, BadExpiry, BadKind})
  {
    hide Tx.Utf16Length;
  }

  /** A signal is prepared exactly when everything is in order, and otherwise refused for the first thing that is not:
      the parent, the addresses, subject and scope, the references, the callbacks, the clock, what the kind of signal
      asks for, the identifiers. */
  lemma PreparedExactly(input: Input, callbacks: bool, now: int, first: string, second: string)
    ensures var r := Prepare(input, callbacks, now, first, second);
            && (r.Waiting? <==> !Asked(input))
            && (r.Ready? <==>
                  Headed(input) && callbacks && Clocked(now) && Described(input, now) && Identified(first, second))
            && (Asked(input) && !Headed(input) ==> HeadingOf(input).Failure? && r == Refused(HeadingOf(input).error))
            && (r == Refused(NoCallbacks) <==> Headed(input) && !callbacks)
            && (r == Refused(BadClock) <==> Headed(input) && callbacks && !Clocked(now))
            && (Headed(input) && callbacks && Clocked(now) && !Described(input, now) ==>
                  ContentOf(input, now).Failure? && r == Refused(ContentOf(input, now).error))
            && (r == Refused(BadUuids) <==>
                  Headed(input) && callbacks && Clocked(now) && Described(input, now) && !Identified(first, second))
            && r != Refused(TooLarge)
  {
    hide HeadingOf, ContentOf, Headed, Described, GoodUuids, Identified, Assemble;
    Sa.NeverTooLarge(input, callbacks, now, first, second);
    IdentifiersExactly(first, second);
    ContentExactly(input, now);
    if Asked(input) {
      HeadingExactly(input);
      if HeadingOf(input).Success? && ContentOf(input, now).Success? {
        AssembledOrNot(input, HeadingOf(input).value, ContentOf(input, now).value, now, Tx.Lower(first),
                       Tx.Lower(second));
      }
    } else {
      NotHeaded(input);
    }
  }

  lemma NotHeaded(input: Input)
    requires !Asked(input)
    ensures !Headed(input)
  {
  }

  lemma IdentifiersExactly(first: string, second: string)
    ensures GoodUuids(Tx.Lower(first), Tx.Lower(second)) <==> Identified(first, second)
  {
    Es.UuidIsUuidText(Tx.Lower(first));
    Es.UuidIsUuidText(Tx.Lower(second));
    hide Es.UuidText, Tx.Lower;
  }

  lemma AssembledOrNot(input: Input, heading: Heading, content: Content, now: int, interaction: string, step: string)
    requires Mailbox(input.to) && (content.expires.Some? ==> St.Milliseconds(content.expires.value))
    ensures var r := Assemble(input, heading, content, now, interaction, step);
            && (r == Refused(BadUuids) <==> !GoodUuids(interaction, step))
            && (r.Ready? || r in {Refused(BadUuids), Refused(TooLarge)})
  {
    hide GoodUuids, Mailbox;
  }
}
