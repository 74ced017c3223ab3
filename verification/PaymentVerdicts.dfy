/**
 When a payment challenge is extracted and when it is paid, for every field of the challenge and every reason of a
 refusal.
 */
module PaymentVerdicts {
  import opened Outcomes
  import opened EmailPayment
  import Nb = NonceBinding
  import Vw = ValidityWindow
  import Am = Amounts
  import En = Envelopes
  import Es = EnvelopeShapes
  import Tx = Texts

  // ----- The fields -----

  /** A 0x prefix and so many hexadecimal digits of either case. */
  predicate HexOf(s: string, digits: nat) {
    |s| == digits + 2 && s[0] == '0' && s[1] == 'x' && Es.HexText(s[2..])
  }

  /** A positive integer of at most 39 digits, without leading zeros. */
  predicate PositiveText(s: string) {
    1 <= |s| <= 39 && s[0] != '0' && forall i :: 0 <= i < |s| ==> '0' <= s[i] <= '9'
  }

  /** An identifier whose domain has no at sign and no space of a regular expression. */
  ghost predicate PaymentId(s: string) {
    exists uuid, domain ::
      && Es.UuidText(uuid) && domain != "" && s == uuid + "@" + domain
      && forall i :: 0 <= i < |domain| ==> domain[i] != '@' && domain[i] !in "\t\n\U{C}\r "
  }

  predicate NonceText(s: string) {
    |s| == 64 && forall i :: 0 <= i < 64 ==> s[i] in "0123456789abcdef"
  }

  /** What is asked of a challenge, in the order in which it is checked, each with the field a refusal names. */
  function Asked(ch: Challenge): seq<(Field, bool)> {
    [(InteractionIdField, ch.interactionId != ""),
     (ExpiryField, ch.expiresAt != ""),
     (BindingField,
      ch.binding.interactionId != "" && ch.binding.challengeStepId != "" && ch.binding.challengeNonce != ""),
     (InteractionIdField, ch.binding.interactionId == ch.interactionId),
     (AmountField, PositiveText(ch.requirements.maxAmountRequired)),
     (PayToField, HexOf(ch.requirements.payTo, 40)),
     (AssetField, HexOf(ch.requirements.asset, 40)),
     (ExtraField, ch.requirements.name != "" && ch.requirements.version != "")]
  }

  /** What is asked of the envelope a challenge comes in. */
  ghost function AskedOfWire(w: Wire): seq<(Field, bool)> {
    [(VersionField, w.interactionVersion == 1),
     (InteractionIdField, PaymentId(w.interactionId)),
     (ProtocolField, w.protocol == "x402.payment"),
     (ProtocolVersionField, w.protocolVersion == 1),
     (StepField, w.step == "challenge"),
     (StepIdField, Es.UuidText(w.stepId)),
     (ExpiryField, w.expiresAt != ""),
     (ChallengeNonceField, NonceText(w.challengeNonce))]
  }

  predicate AllGood(checks: seq<(Field, bool)>) {
    forall i :: 0 <= i < |checks| ==> checks[i].1
  }

  /** The field of the first check that fails. */
  ghost predicate FirstWrong(checks: seq<(Field, bool)>, field: Field) {
    exists i :: 0 <= i < |checks| && checks[i] == (field, false) && forall j :: 0 <= j < i ==> checks[j].1
  }

  ghost function Problem(checks: seq<(Field, bool)>): (p: Option<Field>)
    ensures p.None? <==> AllGood(checks)
    ensures forall field :: p == Some(field) <==> FirstWrong(checks, field)
  {
    if checks == [] then None
    else
      var rest := Problem(checks[1..]);
      assert forall i :: 1 <= i < |checks| ==> checks[i] == checks[1..][i - 1];
      LaterWrong(checks);
      if checks[0].1 then rest else Some(checks[0].0)
  }

  lemma LaterWrong(checks: seq<(Field, bool)>)
    requires checks != []
    ensures checks[0].1 ==> forall field :: FirstWrong(checks, field) <==> FirstWrong(checks[1..], field)
  {
    if checks[0].1 {
      forall field ensures FirstWrong(checks, field) <==> FirstWrong(checks[1..], field) {
        if i :| 0 <= i < |checks[1..]| && checks[1..][i] == (field, false)
                && forall j :: 0 <= j < i ==> checks[1..][j].1 {
          assert checks[i + 1] == (field, false);
          assert forall j :: 1 <= j < i + 1 ==> checks[j] == checks[1..][j - 1];
        }
        if i :| 0 <= i < |checks| && checks[i] == (field, false) && forall j :: 0 <= j < i ==> checks[j].1 {
          assert checks[1..][i - 1] == (field, false);
          assert forall j :: 0 <= j < i - 1 ==> checks[1..][j] == checks[j + 1];
        }
      }
    }
  }

  // ----- The pieces -----

  lemma HexExactly(s: string, digits: nat)
    ensures Prefixed(s, digits) <==> HexOf(s, digits)
  {
    if |s| == digits + 2 {
      assert s[..2] == [s[0], s[1]];
      forall i | 0 <= i < digits
        ensures Tx.LowerHex(s[2..][i]) || 'A' <= s[2..][i] <= 'F' <==> s[2..][i] in "0123456789abcdefABCDEF" {
        HexChar(s[2..][i]);
      }
    }
  }

  lemma HexChar(c: char)
    ensures Tx.LowerHex(c) || 'A' <= c <= 'F' <==> c in "0123456789abcdefABCDEF"
    ensures Tx.LowerHex(c) <==> c in "0123456789abcdef"
  {
    Es.HexDigitIs(c);
    var digits := "0123456789abcdef";
    if '0' <= c <= '9' {
      assert digits[c as int - '0' as int] == c;
    } else if 'a' <= c <= 'f' {
      assert digits[c as int - 'a' as int + 10] == c;
    }
  }

  lemma NonceExactly(s: string)
    ensures Nb.ChallengeNonce(s) <==> NonceText(s)
  {
    forall i | 0 <= i < |s| ensures Tx.LowerHex(s[i]) <==> s[i] in "0123456789abcdef" {
      HexChar(s[i]);
    }
    hide Tx.LowerHex;
  }

  lemma IdExactly(s: string)
    ensures WireId(s) <==> PaymentId(s)
  {
    hide Es.UuidText, En.IsUuid;
    if WireId(s) {
      Es.UuidIsUuidText(s[..36]);
      var domain := s[37..];
      assert s == s[..36] + "@" + domain;
      assert forall i :: 0 <= i < |domain| ==> domain[i] == s[37 + i];
      assert forall i :: 0 <= i < |domain| ==> domain[i] != '@' && domain[i] !in "\t\n\U{C}\r ";
    }
    if uuid, domain :| Es.UuidText(uuid) && domain != "" && s == uuid + "@" + domain
                       && forall i :: 0 <= i < |domain| ==> domain[i] != '@' && domain[i] !in "\t\n\U{C}\r " {
      Es.UuidIsUuidText(uuid);
      UuidLength(uuid);
      assert s[..36] == uuid && s[36] == '@';
      assert forall i :: 37 <= i < |s| ==> s[i] == domain[i - 37];
    }
  }

  lemma UuidLength(s: string)
    requires Es.UuidText(s)
    ensures |s| == 36
  {
  }

  // ----- Challenges -----

  /** A challenge is refused for the first thing that is asked and not there. */
  lemma ChallengeExactly(ch: Challenge)
    ensures ChallengeProblem(ch) == Problem(Asked(ch))
  {
    var terms, checks := ch.requirements, Asked(ch);
    HexExactly(terms.payTo, 40);
    HexExactly(terms.asset, 40);
    assert Am.Amount(terms.maxAmountRequired) <==> PositiveText(terms.maxAmountRequired);
    hide HexOf, Prefixed, PositiveText, Am.Amount;
    Unrolled(checks);
  }

  /** The first problem of eight checks. */
  lemma Unrolled(checks: seq<(Field, bool)>)
    requires |checks| == 8
    ensures Problem(checks) == if !checks[0].1 then Some(checks[0].0) else if !checks[1].1 then Some(checks[1].0)
                               else if !checks[2].1 then Some(checks[2].0) else if !checks[3].1 then Some(checks[3].0)
                               else if !checks[4].1 then Some(checks[4].0) else if !checks[5].1 then Some(checks[5].0)
                               else if !checks[6].1 then Some(checks[6].0) else if !checks[7].1 then Some(checks[7].0)
                               else None
  {
    if i :| 0 <= i < 8 && !checks[i].1 && forall j :: 0 <= j < i ==> checks[j].1 {
      assert FirstWrong(checks, checks[i].0);
    }
  }

  lemma WireExactly(w: Wire)
    ensures WireProblem(w) == Problem(AskedOfWire(w))
  {
    IdExactly(w.interactionId);
    Es.UuidIsUuidText(w.stepId);
    NonceExactly(w.challengeNonce);
    hide WireId, PaymentId, En.IsUuid, Es.UuidText, Nb.ChallengeNonce, NonceText;
    Unrolled(AskedOfWire(w));
  }

  /** A challenge is extracted exactly from an attachment whose envelope and terms are all in order, and is then bound
      to the envelope it came in; otherwise the first thing that is not in order is named. */
  lemma ExtractedExactly(part: Attachment)
    ensures forall field :: ExtractEmailChallenge(part) == Failure(field) <==>
              match part
              case Blank => field == PartField
              case NotJson => field == JsonField
              case Json(w) =>
                var ch := Challenge(w.interactionId, w.requirements,
                                    Nb.Binding(w.interactionId, w.stepId, w.challengeNonce), w.expiresAt);
                || FirstWrong(AskedOfWire(w), field)
                || (AllGood(AskedOfWire(w)) && FirstWrong(Asked(ch), field))
    ensures ExtractEmailChallenge(part).Success? ==>
              && part.Json?
              && ExtractEmailChallenge(part).value
                 == Challenge(part.wire.interactionId, part.wire.requirements,
                              Nb.Binding(part.wire.interactionId, part.wire.stepId, part.wire.challengeNonce),
                              part.wire.expiresAt)
  {
    if part.Json? {
      var w := part.wire;
      WireExactly(w);
      ChallengeExactly(Challenge(w.interactionId, w.requirements, WireBinding(w), w.expiresAt));
      NotBoth(AskedOfWire(w));
    }
    hide AskedOfWire, Asked, AllGood, FirstWrong, WireProblem, ChallengeProblem;
  }

  lemma NotBoth(checks: seq<(Field, bool)>)
    ensures AllGood(checks) ==> forall field :: !FirstWrong(checks, field)
    ensures !AllGood(checks) ==> exists field :: FirstWrong(checks, field)
  {
    assert Problem(checks).Some? ==> FirstWrong(checks, Problem(checks).value);
  }

  // ----- Payments -----

  /** Everything up to the clock is in order. */
  ghost predicate Accepted(world: World, challenge: Option<Challenge>, signer: Option<Signer>) {
    && signer.Some? && signer.value.address != "" && challenge.Some? && AllGood(Asked(challenge.value))
    && challenge.value.requirements.network in {"base", "base-sepolia"}
    && challenge.value.requirements.scheme == "exact"
    && world.parseTime(challenge.value.expiresAt).Some?
  }

  /** Why a payment is refused before anything is signed. */
  lemma RefusedExactly(world: World, challenge: Option<Challenge>, signer: Option<Signer>)
    ensures var r := PayEmailChallenge(world, challenge, signer);
            var ready := signer.Some? && signer.value.address != "";
            var whole := ready && challenge.Some? && AllGood(Asked(challenge.value));
            && (r == Failure(NoSigner) <==> !ready)
            && (forall field :: r == Failure(Malformed(field)) <==>
                  ready && if challenge.None? then field == PartField else FirstWrong(Asked(challenge.value), field))
            && (r == Failure(UnsupportedNetwork) <==>
                  whole && challenge.value.requirements.network !in {"base", "base-sepolia"})
            && (r == Failure(UnsupportedScheme) <==>
                  && whole && challenge.value.requirements.network in {"base", "base-sepolia"}
                  && challenge.value.requirements.scheme != "exact")
            && (r == Failure(BadExpiry) <==>
                  && whole && challenge.value.requirements.network in {"base", "base-sepolia"}
                  && challenge.value.requirements.scheme == "exact"
                  && world.parseTime(challenge.value.expiresAt).None?)
            && (r == Failure(Expired) <==>
                  Accepted(world, challenge, signer) && world.parseTime(challenge.value.expiresAt).value <= world.now)
            && (r == Failure(NoWindow) <==>
                  && Accepted(world, challenge, signer)
                  && world.now < world.parseTime(challenge.value.expiresAt).value
                  && Vw.Compute(Vw.Default(world.parseTime(challenge.value.expiresAt).value, world.now)).Failure?)
  {
    if challenge.Some? {
      ChallengeExactly(challenge.value);
      NotBoth(Asked(challenge.value));
      if signer.Some? && ChallengeProblem(challenge.value).None? && ChainId(challenge.value.requirements.network).Some?
         && world.parseTime(challenge.value.expiresAt).Some? {
        PaidLater(world, challenge.value, signer.value, world.parseTime(challenge.value.expiresAt).value);
      }
    }
    hide Asked, AllGood, FirstWrong, ChallengeProblem, PayChecked, Vw.Compute;
  }

  lemma PaidLater(world: World, ch: Challenge, signer: Signer, expiresAt: Vw.int64)
    requires ChallengeProblem(ch).None? && ChainId(ch.requirements.network).Some?
    ensures var r := PayChecked(world, ch, signer, expiresAt);
            && (r == Failure(NoWindow) <==> Vw.Compute(Vw.Default(expiresAt, world.now)).Failure?)
            && (r.Success? || r.error in {NoWindow, SigningFailed, BadPayload, BadStep})
  {
    hide Vw.Compute, SignInteractionPayment, BuildPayload, BuildStep, ChallengeProblem;
  }

  /** Why it is refused after the signer was asked: the challenge nonce is malformed or the signer declines, or what it
      returns is no signature of 65 bytes. */
  lemma UnsignedExactly(world: World, ch: Challenge, signer: Signer)
    requires Sound(world) && signer.address != "" && ChallengeProblem(ch).None? && Payable(world, ch)
    ensures var r := PayEmailChallenge(world, Some(ch), Some(signer));
            if !NonceText(ch.binding.challengeNonce) then r == Failure(SigningFailed)
            else
              var text := signer.sign(DomainOf(ch.requirements), AuthorizationFor(world, ch, signer));
              && (r == Failure(SigningFailed) <==> text.None?)
              && (r == Failure(BadPayload) <==> text.Some? && !HexOf(text.value, 130))
  {
    NonceExactly(ch.binding.challengeNonce);
    hide Vw.Compute, WireId, En.IsUuid, Signature, Nonce, RequirementsProblem, Nb.BoundNonce, Nb.ChallengeNonce,
         HexOf, NonceText;
    if Nb.ChallengeNonce(ch.binding.challengeNonce) {
      BoundNonceIsNonce(world, ch.binding);
      var text := signer.sign(DomainOf(ch.requirements), AuthorizationFor(world, ch, signer));
      if text.Some? {
        SignatureExactly(text.value);
      }
    } else {
      NoBoundNonce(world, ch.binding);
    }
  }

  lemma SignatureExactly(s: string)
    ensures Signature(s) <==> HexOf(s, 130)
  {
    HexExactly(s, 130);
  }
}
