/**
 Inputs at which the theorems about preparing, answering and paying say something, and inputs that show the
 shortcomings they allow.
 */
module Examples {
  import opened Outcomes
  import opened Values
  import Utf8
  import Tx = Texts
  import Rf = References
  import En = Envelopes
  import St = SignalTime
  import Sg = Signals
  import Ec = Encoded
  import Sc = SignalContent
  import Sa = SignalAgreement
  import Pr = Presence
  import Pc = PresenceChain
  import Am = Amounts
  import Nb = NonceBinding
  import Vw = ValidityWindow
  import Ep = EmailPayment

  /** A mailbox and an identifier for each letter and digit. */
  function Address(name: char): string {
    [name] + "@b.c"
  }

  function Id(digit: char): string {
    "00000000-0000-0000-0000-00000000000" + [digit]
  }

  const PARENT := "m@x"

  // ----- What the inputs are made of -----

  /** Float conversions of which the theorems' assumption is true. */
  function OneOnly(): Strconv {
    Strconv((text: string) => if text == "1" then Some(1.0) else None, (n: real) => "1")
  }

  lemma ConversionsExist()
    ensures Faithful(OneOnly()) && Sa.OneIsExact(OneOnly())
  {
    assert Digits("1", 1) == 1 && Digits("1", 0) == 1;
  }

  lemma IdIsGood(digit: char)
    requires '0' <= digit <= '9'
    ensures Pr.Uuid(Id(digit)) && Tx.Lower(Id(digit)) == Id(digit) && En.IsUuid(Id(digit))
  {
    hide En.IsUuid;
    Pc.FreshIsPlain(Id(digit));
  }

  lemma IdsDiffer(one: char, other: char)
    requires one != other
    ensures Id(one) != Id(other)
  {
    assert Id(one)[35] != Id(other)[35];
  }

  lemma Identifiers()
    ensures En.IsUuid(Id('1')) && En.IsUuid(Id('2')) && Pr.Uuid(Id('1')) && Pr.Uuid(Id('2')) && Id('1') != Id('2')
    ensures Tx.Lower(Id('1')) == Id('1') && Tx.Lower(Id('2')) == Id('2')
  {
    hide Id;
    IdIsGood('1');
    IdIsGood('2');
    IdsDiffer('1', '2');
  }

  lemma HostIsGood()
    ensures Tx.Split("b.c", '.') == ["b", "c"] && Sg.Host("b.c") && Pr.Host("b.c")
  {
    Tx.SplitAtOnly("b", "c", '.');
    assert "b" + ['.'] + "c" == "b.c";
    assert Sg.Label("b") && Sg.Label("c");
  }

  lemma MailboxIsGood(name: char)
    requires 'a' <= name <= 'z'
    ensures var mailbox := Address(name);
            && Sg.Mailbox(mailbox) && Sg.HostOf(mailbox) == "b.c" && Sg.Header(mailbox, 320)
            && Tx.Lower(mailbox) == mailbox && Pr.Mailbox(mailbox) && Pr.Visible(mailbox)
  {
    var mailbox := Address(name);
    HostIsGood();
    Tx.SplitAtOnly([name], "b.c", '@');
    assert [name] + ['@'] + "b.c" == mailbox;
    Tx.SplitNowhere([name], '.');
    assert Sg.Atom([name]);
    Utf8.AsciiEncoding(mailbox);
    hide Tx.Split, Sg.Host, Pr.Host, Sg.Atom;
    assert Tx.Lower(mailbox) == mailbox;
  }

  lemma ParentIsGood()
    ensures Rf.MessageId(PARENT) == Some("<m@x>")
  {
    assert Rf.OnlyAt(PARENT, 1);
    assert Rf.WireId(PARENT);
    assert "" + PARENT + "" == PARENT;
    Rf.SpellingAccepted(PARENT, "", PARENT, "");
    assert "<" + PARENT + ">" == "<m@x>";
  }

  // ----- A note that transport loses -----

  function Acknowledgement(note: string): Sg.Input {
    Sg.Input("scope", Address('a'), Address('d'), Some(PARENT), "Hello", [], "ack", "received", Some(note), None)
  }

  lemma ParentAlone()
    ensures Rf.Chain([], "<m@x>") == Some(["<m@x>"])
  {
  }

  lemma HeadingIsGood(note: string)
    ensures Sg.HeadingOf(Acknowledgement(note)).Success?
  {
    ParentIsGood();
    MailboxIsGood('a');
    MailboxIsGood('d');
    HeadersAreGood();
    ParentAlone();
    hide Address, Sg.HeadingOf, Rf.MessageId, Rf.Chain, Sg.Mailbox, Sg.Header, Tx.Lower, Tx.Split;
    GoodHeading(Acknowledgement(note), "<m@x>");
  }

  lemma GoodHeading(input: Sg.Input, target: string)
    requires input.messageId.Some? && Rf.MessageId(input.messageId.value) == Some(target)
    requires Sg.Header(input.from, 320) && Sg.Mailbox(input.from) && Sg.Header(input.to, 320) && Sg.Mailbox(input.to)
    requires Sg.Header(input.subject, 998) && Sg.Header(input.accountScope, 256) && input.accountScope != ""
    requires input.references == [] && Rf.Chain([], target).Some?
    ensures Sg.HeadingOf(input).Success?
  {
    hide Rf.MessageId, Rf.Chain, Sg.Mailbox, Sg.Header, Rf.Fits, Rf.TargetLastAndOnce, Rf.Cut, Rf.Canonical;
  }

  lemma HeadersAreGood()
    ensures Sg.Header("Hello", 998) && Sg.Header("scope", 256)
  {
    Utf8.AsciiEncoding("Hello");
    Utf8.AsciiEncoding("scope");
    hide Utf8.Encode;
  }

  /** Every good note can be sent with an acknowledgement. */
  lemma NoteIsPrepared(note: string)
    requires Sg.GoodNote(note)
    ensures Sg.Prepare(Acknowledgement(note), true, 0, Id('1'), Id('2')).Ready?
  {
    HeadingIsGood(note);
    Identifiers();
    hide Sg.HeadingOf, Sg.Prepare, Sg.GoodNote, En.IsUuid, Tx.Lower;
    Sa.NeverTooLarge(Acknowledgement(note), true, 0, Id('1'), Id('2'));
  }

  /** A note with a CRLF pair is accepted, prepared and recognised as it left, and no longer recognised once transport
      has rewritten the line ends. */
  lemma PairIsLostInTransport()
    ensures Sg.GoodNote("a\r\nb")
    ensures Sg.Prepare(Acknowledgement("a\r\nb"), true, 0, Id('1'), Id('2')).Ready?
    ensures var request := Sg.Prepare(Acknowledgement("a\r\nb"), true, 0, Id('1'), Id('2')).prepared.request;
            && Sa.Arrived(OneOnly(), request, request.bodyText) == Sc.InformationalOnly
            && Sa.Arrived(OneOnly(), request, Tx.Crlf(request.bodyText)) != Sc.InformationalOnly
  {
    var note := "a\r\nb";
    Ec.Utf16OfBasic(note);
    assert Tx.CrlfAt(note, 1);
    NoteIsPrepared(note);
    ConversionsExist();
    hide Sg.Prepare, Sa.Arrived, Tx.Crlf, Faithful;
    Sa.PreparedIsInformational(OneOnly(), Acknowledgement(note), true, 0, Id('1'), Id('2'));
  }

  // ----- A probe and its answer -----

  function Prober(): Pr.Context {
    Pr.Context("scope", Address('a'), Address('d'))
  }

  function Answerer(): Pr.Context {
    Pr.Context("scope", Address('d'), Address('a'))
  }

  const NONCE := "00000000000000000000000000000000"

  function Now(): Pr.Answers {
    Pr.Answers(Some(0), Some(Id('1')), Some(Id('2')), Some(NONCE))
  }

  function Later(): Pr.Answers {
    Pr.Answers(Some(1000), Some(Id('3')), None, None)
  }

  lemma ContextsAreGood()
    ensures Pr.GoodContext(Prober()) && Pr.GoodContext(Answerer())
    ensures Tx.Lower(Address('d')) == Address('d')
  {
    MailboxIsGood('a');
    MailboxIsGood('d');
    hide Address;
    hide Pr.Mailbox, Tx.Lower;
  }

  /** A probe that is prepared. */
  lemma ProbeIsPrepared()
    ensures Pr.PrepareProbe(Prober(), Now()).Ready?
  {
    ContextsAreGood();
    Identifiers();
    NonceIsGood();
    hide Pr.GoodContext, Pr.Uuid, Pr.PrepareProbe, Tx.Lower, Pr.Nonce;
    Pc.ProbeNeverTooLarge(Prober(), Now());
  }

  lemma NonceIsGood()
    ensures Pr.Nonce(NONCE)
  {
  }

  /** An answer to the probe that is prepared. */
  lemma ProbeIsAnswered()
    ensures Pr.GoodContext(Prober()) && Pr.ProbeOf(Prober(), Now()).Some?
    ensures Pr.PrepareAlive(Answerer(), Pr.ProbeOf(Prober(), Now()).value, Some(PARENT), [], Later()).Ready?
  {
    ProbeIsPrepared();
    Pc.ProbeNeverTooLarge(Prober(), Now());
    ContextsAreGood();
    LaterIsGood();
    ParentIsGood();
    Utf8.AsciiEncoding(PARENT);
    hide Pr.GoodContext, Pr.ProbeOf, Pr.PrepareAlive, Pr.PrepareProbe, Rf.MessageId, Tx.Lower, Pr.Uuid, Utf8.Encode;
    Pc.AnyProbeIsAnswered(Prober(), Now(), Answerer(), PARENT, Later());
  }

  lemma LaterIsGood()
    ensures Pr.FreshUuid(Later().first)
    ensures Tx.Lower(Id('3')) != Tx.Lower(Id('1')) && Tx.Lower(Id('3')) != Tx.Lower(Id('2'))
  {
    IdIsGood('3');
    IdsDiffer('3', '1');
    IdsDiffer('3', '2');
    Identifiers();
    hide Tx.Lower, Pr.Uuid, En.IsUuid, Id;
  }

  // ----- Payments -----

  /** A wallet address, a signature or a nonce of zeros. */
  function ZeroHex(digits: nat): (s: string)
    ensures Ep.Prefixed(s, digits)
  {
    var s := "0x" + seq(digits, i => '0');
    assert s[..2] == "0x";
    s
  }

  /** Everything lowers to itself and hashes to zeros; every expiry is at 1000 seconds, and the time is 0. */
  function CalmWorld(): Ep.World {
    Ep.World(c => c, b => seq(32, i => 0), text => Some(1000), 0, Id('2'))
  }

  function Wallet(): Ep.Signer {
    Ep.Signer(ZeroHex(40), (domain, auth) => Some(ZeroHex(130)))
  }

  function Terms(): Ep.Requirements {
    Ep.Requirements("exact", "base", "10000", ZeroHex(40), ZeroHex(40), "USD Coin", "2")
  }

  function ZeroNonce(): (s: string)
    ensures Nb.ChallengeNonce(s)
  {
    seq(64, i => '0')
  }

  function ChallengeAt(interactionId: string): Ep.Challenge {
    Ep.Challenge(interactionId, Terms(), Nb.Binding(interactionId, Id('1'), ZeroNonce()), "2030-01-01T00:00:00Z")
  }

  lemma WorldIsSound()
    ensures Ep.Sound(CalmWorld())
  {
    Identifiers();
    hide En.IsUuid;
  }

  /** With any interaction identifier at all, this challenge passes its checks and is signed for. */
  lemma ChallengeIsSigned(interactionId: string)
    requires interactionId != ""
    ensures var ch := ChallengeAt(interactionId);
            && Ep.ChallengeProblem(ch).None? && Ep.Payable(CalmWorld(), ch) && Ep.Signs(CalmWorld(), ch, Wallet())
  {
    hide Ep.Prefixed, Nb.ChallengeNonce;
    assert Am.Amount("10000");
    Vw.DefaultsNeverFail(1000, 0);
  }

  /** A challenge made up by hand with the interaction identifier `x` is signed for, and only then refused. */
  lemma RefusedAfterSigning()
    ensures Ep.PayEmailChallenge(CalmWorld(), Some(ChallengeAt("x")), Some(Wallet())) == Failure(Ep.BadStep)
  {
    WorldIsSound();
    ChallengeIsSigned("x");
    hide Ep.PayEmailChallenge, Ep.ChallengeProblem, Ep.Payable, Ep.Signs, Ep.Prefixed;
    Ep.FailsAfterSigningExactly(CalmWorld(), ChallengeAt("x"), Wallet());
  }

  function ChallengePart(): Ep.Attachment {
    Ep.Json(Ep.Wire(1, Id('2') + "@b.c", Ep.PROTOCOL, 1, "challenge", Id('1'), "2030-01-01T00:00:00Z", ZeroNonce(),
                    Terms()))
  }

  /** The same challenge with a proper identifier is extracted from its attachment and paid. */
  lemma ExtractedIsPaid()
    ensures var ch := ChallengeAt(Id('2') + "@b.c");
            && Ep.ExtractEmailChallenge(ChallengePart()) == Success(ch)
            && Ep.PayEmailChallenge(CalmWorld(), Some(ch), Some(Wallet())).Success?
  {
    var id := Id('2') + "@b.c";
    WorldIsSound();
    WireIdIsGood();
    ChallengeIsSigned(id);
    PartIsExtracted();
    hide Ep.PayEmailChallenge, Ep.ChallengeProblem, Ep.Payable, Ep.Signs, Ep.WireId, Ep.ExtractEmailChallenge,
         ChallengePart;
    Ep.PaysExactly(CalmWorld(), ChallengeAt(id), Wallet());
  }

  lemma PartIsExtracted()
    ensures Ep.ExtractEmailChallenge(ChallengePart()) == Success(ChallengeAt(Id('2') + "@b.c"))
  {
    Identifiers();
    WireIdIsGood();
    ChallengeIsSigned(Id('2') + "@b.c");
    hide Id, Terms, Ep.ExtractEmailChallenge, Ep.ChallengeProblem, Ep.Payable, Ep.Signs, En.IsUuid, Ep.WireId,
         Nb.ChallengeNonce;
    GoodWire(ChallengePart().wire);
  }

  lemma GoodWire(w: Ep.Wire)
    requires w.interactionVersion == 1 && w.protocolVersion == 1 && w.protocol == Ep.PROTOCOL && w.step == "challenge"
    requires Ep.WireId(w.interactionId) && En.IsUuid(w.stepId)
    requires w.expiresAt != "" && Nb.ChallengeNonce(w.challengeNonce)
    requires Ep.ChallengeProblem(Ep.Challenge(w.interactionId, w.requirements, Ep.WireBinding(w), w.expiresAt)).None?
    ensures Ep.ExtractEmailChallenge(Ep.Json(w))
            == Success(Ep.Challenge(w.interactionId, w.requirements, Ep.WireBinding(w), w.expiresAt))
  {
    hide Ep.WireId, En.IsUuid, Nb.ChallengeNonce, Ep.ChallengeProblem;
  }

  lemma WireIdIsGood()
    ensures Ep.WireId(Id('2') + "@b.c")
  {
    var id := Id('2') + "@b.c";
    Identifiers();
    hide En.IsUuid;
    assert id[..36] == Id('2');
  }

  // ----- Known instants and a known weight -----

  /** A date that counts to an instant is what the instant is written as. */
  lemma WrittenAs(ms: nat, c: St.Civil)
    requires St.Milliseconds(ms) && St.Exists(c) && St.Instant(c) == ms
    ensures St.FormatUtc(ms) == St.Spell(c)
  {
    St.CivilOfIsRight(ms);
    hide St.CivilOf, St.Instant, St.Spell;
    St.InstantIsInjective(St.CivilOf(ms), c);
  }

  /** A billion seconds after the epoch, and a moment of a leap day. */
  lemma KnownInstants()
    ensures St.FormatUtc(1000000000000) == "2001-09-09T01:46:40.000Z"
    ensures St.FormatUtc(1709209845678) == "2024-02-29T12:30:45.678Z"
  {
    Billennium();
    LeapDay();
    hide St.Instant, St.FormatUtc;
    WrittenAs(1000000000000, St.Civil(2001, 9, 9, 1, 46, 40, 0));
    WrittenAs(1709209845678, St.Civil(2024, 2, 29, 12, 30, 45, 678));
  }

  lemma Billennium()
    ensures var c := St.Civil(2001, 9, 9, 1, 46, 40, 0);
            && St.Exists(c) && St.Instant(c) == 1000000000000 && St.Spell(c) == "2001-09-09T01:46:40.000Z"
  {
    assert St.DaysBeforeMonth(2001, 5) == 120;
    assert St.DaysBeforeMonth(2001, 9) == 243;
  }

  lemma LeapDay()
    ensures var c := St.Civil(2024, 2, 29, 12, 30, 45, 678);
            && St.Exists(c) && St.Instant(c) == 1709209845678 && St.Spell(c) == "2024-02-29T12:30:45.678Z"
  {
    assert St.DaysBeforeMonth(2024, 2) == 31;
  }

  /** Four values, one key, and five bytes of text. */
  lemma KnownWeight()
    ensures Weight(Obj(map["ab" := Arr([Str("cde"), Null])])) == 4 + 1 + 5
  {
    var items := Arr([Str("cde"), Null]);
    var v := Obj(map["ab" := items]);
    Utf8.AsciiEncoding("ab");
    Utf8.AsciiEncoding("cde");
    assert Weight(items) == 1 + (1 + 3) + 1 by {
      assert ItemsWeight(items, 1) == Weight(Str("cde"));
    }
    assert v.members.Keys == {"ab"};
    KeysWeightSplit(v, {"ab"}, "ab");
    assert {"ab"} - {"ab"} == {};
    hide Utf8.Encode;
  }
}
