/**
 Paying a challenge that came by email: extracting it from the attachment, checking it, signing the
 authorization it asks for, and building the payment step that answers it.
 */
module EmailPayment {
  import opened Outcomes
  import opened Utf8
  import opened NonceBinding
  import opened ValidityWindow
  import opened Amounts
  import En = Envelopes
  import Sn = Snapshots
  import Tx = Texts

  const PROTOCOL := "x402.payment"

  datatype Requirements = Requirements(scheme: string, network: string, maxAmountRequired: string, payTo: string,
                                       asset: string, name: string, version: string)

  datatype Challenge = Challenge(interactionId: string, requirements: Requirements, binding: Binding, expiresAt: string)

  /** The challenge envelope as it is read off the wire. */
  datatype Wire = Wire(interactionVersion: int, interactionId: string, protocol: string, protocolVersion: int,
                       step: string, stepId: string, expiresAt: string, challengeNonce: string,
                       requirements: Requirements)

  /** The attachment as the JSON decoder sees it. */
  datatype Attachment = Blank | NotJson | Json(wire: Wire)

  datatype Field =
    | PartField | JsonField | VersionField | InteractionIdField | ProtocolField | ProtocolVersionField
    | StepField | StepIdField | ExpiryField | ChallengeNonceField | BindingField | AmountField
    | PayToField | AssetField | ExtraField

  // ----- Syntax -----

  predicate HexChars(s: string) {
    forall i :: 0 <= i < |s| ==> Tx.LowerHex(s[i]) || 'A' <= s[i] <= 'F'
  }

  predicate Prefixed(s: string, digits: nat) {
    |s| == digits + 2 && s[..2] == "0x" && HexChars(s[2..])
  }

  predicate Address(s: string) { Prefixed(s, 40) }

  predicate Signature(s: string) { Prefixed(s, 130) }

  predicate Nonce(s: string) { Prefixed(s, 64) }

  predicate RegexpSpace(c: char) {
    c in "\t\n\U{C}\r "
  }

  /** `x402WireIDRe`: a UUID, an at sign, and a domain without spaces or at signs. */
  predicate WireId(s: string) {
    |s| > 37 && En.IsUuid(s[..36]) && s[36] == '@' && forall i :: 37 <= i < |s| ==> !RegexpSpace(s[i]) && s[i] != '@'
  }

  // ----- Checking a challenge -----

  /** `validatePaymentRequirements`: the first field that is wrong. */
  function RequirementsProblem(pr: Requirements): Option<Field> {
    if !Amount(pr.maxAmountRequired) then Some(AmountField)
    else if !Address(pr.payTo) then Some(PayToField)
    else if !Address(pr.asset) then Some(AssetField)
    else if pr.name == "" || pr.version == "" then Some(ExtraField)
    else None
  }

  /** `validateEmailChallenge`. */
  function ChallengeProblem(ch: Challenge): Option<Field> {
    if ch.interactionId == "" then Some(InteractionIdField)
    else if ch.expiresAt == "" then Some(ExpiryField)
    else if ch.binding.interactionId == "" || ch.binding.challengeStepId == "" || ch.binding.challengeNonce == "" then
      Some(BindingField)
    else if ch.binding.interactionId != ch.interactionId then Some(InteractionIdField)
    else RequirementsProblem(ch.requirements)
  }

  function WireProblem(w: Wire): Option<Field> {
    if w.interactionVersion != 1 then Some(VersionField)
    else if !WireId(w.interactionId) then Some(InteractionIdField)
    else if w.protocol != PROTOCOL then Some(ProtocolField)
    else if w.protocolVersion != 1 then Some(ProtocolVersionField)
    else if w.step != "challenge" then Some(StepField)
    else if !En.IsUuid(w.stepId) then Some(StepIdField)
    else if w.expiresAt == "" then Some(ExpiryField)
    else if !ChallengeNonce(w.challengeNonce) then Some(ChallengeNonceField)
    else None
  }

  function WireBinding(w: Wire): Binding {
    Binding(w.interactionId, w.stepId, w.challengeNonce)
  }

  /** `ExtractEmailChallenge`. */
  function ExtractEmailChallenge(part: Attachment): Result<Challenge, Field> {
    match part
    case Blank => Failure(PartField)
    case NotJson => Failure(JsonField)
    case Json(w) =>
      if WireProblem(w).Some? then Failure(WireProblem(w).value)
      else
        var ch := Challenge(w.interactionId, w.requirements, WireBinding(w), w.expiresAt);
        if ChallengeProblem(ch).Some? then Failure(ChallengeProblem(ch).value) else Success(ch)
  }

  // ----- Signing -----

  datatype TokenDomain = TokenDomain(name: string, version: string, chainId: int, verifyingContract: string)

  datatype Authorization = Authorization(from: string, to: string, value: nat, validAfter: int, validBefore: int,
                                         nonce: string)

  datatype Signer = Signer(address: string, sign: (TokenDomain, Authorization) -> Option<string>)

  /** What the client is given by its surroundings: the hash, the case folding, the reading of a timestamp, the clock
      and a fresh identifier. */
  datatype World = World(fold: char -> char, keccak: seq<byte> -> seq<byte>, parseTime: string -> Option<int64>,
                         now: int64, freshId: string)

  ghost predicate Sound(w: World) {
    Folding(w.fold) && (forall b :: |w.keccak(b)| == 32) && En.IsUuid(w.freshId)
  }

  datatype Payment = Payment(network: string, signature: string, from: string, to: string, value: string,
                             validAfter: string, validBefore: string, nonce: string)

  datatype Step = Step(interactionId: string, stepId: string, prevStepId: string, payment: Payment)

  datatype PayError =
    | NoSigner | Malformed(field: Field) | UnsupportedNetwork | UnsupportedScheme | BadExpiry | Expired | NoWindow
    | SigningFailed | BadPayload | BadStep

  function ChainId(network: string): Option<int> {
    if network == "base-sepolia" then Some(84532) else if network == "base" then Some(8453) else None
  }

  /** `SignInteractionPayment`. */
  function SignInteractionPayment(world: World, signer: Signer, domain: TokenDomain, to: string, value: nat,
                                  binding: Binding, w: Window)
    : Option<(Authorization, string)>
  {
    match BoundNonce(world.fold, world.keccak, binding)
    case Failure(_) => None
    case Success(nonce) =>
      var auth := Authorization(signer.address, to, value, w.after, w.before, nonce);
      match signer.sign(domain, auth)
      case None => None
      case Some(signature) => Some((auth, signature))
  }

  /** `BuildExactEvmPaymentPayload`. */
  function BuildPayload(network: string, auth: Authorization, signature: string): Option<Payment> {
    if ChainId(network).None? || !Signature(signature) || !Nonce(auth.nonce) then None
    else
      Some(Payment(network, signature, auth.from, auth.to, Sn.FormatInteger(auth.value),
                   Sn.FormatInteger(auth.validAfter), Sn.FormatInteger(auth.validBefore), auth.nonce))
  }

  /** `BuildPaymentStepEnvelope`. */
  function BuildStep(interactionId: string, stepId: string, prevStepId: string, payment: Payment): Option<Step> {
    if !WireId(interactionId) || !En.IsUuid(stepId) || !En.IsUuid(prevStepId) then None
    else Some(Step(interactionId, stepId, prevStepId, payment))
  }

  /** `PayEmailChallenge`. */
  function PayEmailChallenge(world: World, challenge: Option<Challenge>,
                             signer: Option<Signer>): Result<Step, PayError> {
    if signer.None? || signer.value.address == "" then Failure(NoSigner)
    else if challenge.None? then Failure(Malformed(PartField))
    else if ChallengeProblem(challenge.value).Some? then Failure(Malformed(ChallengeProblem(challenge.value).value))
    else
      var ch := challenge.value;
      if ChainId(ch.requirements.network).None? then Failure(UnsupportedNetwork)
      else if ch.requirements.scheme != "exact" then Failure(UnsupportedScheme)
      else if world.parseTime(ch.expiresAt).None? then Failure(BadExpiry)
      else if world.parseTime(ch.expiresAt).value <= world.now then Failure(Expired)
      else PayChecked(world, ch, signer.value, world.parseTime(ch.expiresAt).value)
  }

  /** The window, the signature and the step, once the challenge is checked. */
  function PayChecked(world: World, ch: Challenge, signer: Signer, expiresAt: int64): Result<Step, PayError>
    requires ChallengeProblem(ch).None? && ChainId(ch.requirements.network).Some?
  {
    var pr := ch.requirements;
    match Compute(Default(expiresAt, world.now))
    case Failure(_) => Failure(NoWindow)
    case Success(w) =>
      match SignInteractionPayment(world, signer, DomainOf(pr), pr.payTo, DecimalValue(pr.maxAmountRequired),
                                   ch.binding, w)
      case None => Failure(SigningFailed)
      case Some((auth, signature)) =>
        match BuildPayload(pr.network, auth, signature)
        case None => Failure(BadPayload)
        case Some(payment) =>
          match BuildStep(ch.interactionId, world.freshId, ch.binding.challengeStepId, payment)
          case None => Failure(BadStep)
          case Some(step) => Success(step)
  }

  function DomainOf(pr: Requirements): TokenDomain
    requires ChainId(pr.network).Some?
  {
    TokenDomain(pr.name, pr.version, ChainId(pr.network).value, pr.asset)
  }

  // ----- Which payments succeed -----

  /** The authorization a payment signs. */
  function AuthorizationFor(world: World, ch: Challenge, signer: Signer): Authorization
    requires ChallengeProblem(ch).None? && ChallengeNonce(ch.binding.challengeNonce)
    requires world.parseTime(ch.expiresAt).Some?
             && Compute(Default(world.parseTime(ch.expiresAt).value, world.now)).Success?
  {
    var w := Compute(Default(world.parseTime(ch.expiresAt).value, world.now)).value;
    Authorization(signer.address, ch.requirements.payTo, DecimalValue(ch.requirements.maxAmountRequired), w.after,
                  w.before, BoundNonce(world.fold, world.keccak, ch.binding).value)
  }

  /** A network and a scheme the client knows, and an expiry that can be read and lies ahead. */
  predicate Supported(world: World, ch: Challenge) {
    && ChainId(ch.requirements.network).Some? && ch.requirements.scheme == "exact"
    && world.parseTime(ch.expiresAt).Some? && world.now < world.parseTime(ch.expiresAt).value
  }

  predicate Payable(world: World, ch: Challenge) {
    Supported(world, ch) && Compute(Default(world.parseTime(ch.expiresAt).value, world.now)).Success?
  }

  /** The signer returns a 65-byte signature for exactly the authorization it is asked for. */
  predicate Signs(world: World, ch: Challenge, signer: Signer)
    requires ChallengeProblem(ch).None? && ChallengeNonce(ch.binding.challengeNonce) && Payable(world, ch)
  {
    var signature := signer.sign(DomainOf(ch.requirements), AuthorizationFor(world, ch, signer));
    signature.Some? && Signature(signature.value)
  }

  lemma BoundNonceIsNonce(world: World, binding: Binding)
    requires Sound(world) && ChallengeNonce(binding.challengeNonce)
    ensures BoundNonce(world.fold, world.keccak, binding).Success?
            && Nonce(BoundNonce(world.fold, world.keccak, binding).value)
  {
    var digits := HexEncode(world.keccak(Preimage(world.fold, binding)));
    assert ("0x" + digits)[2..] == digits;
  }

  /** Over all challenges, extracted or not: a payment succeeds exactly when the challenge and the signer pass the
      checks, the challenge is payable, the signature has its shape, and the identifiers have theirs. */
  lemma PaysExactly(world: World, ch: Challenge, signer: Signer)
    requires Sound(world)
    ensures PayEmailChallenge(world, Some(ch), Some(signer)).Success? <==>
            && signer.address != "" && ChallengeProblem(ch).None? && Payable(world, ch)
            && ChallengeNonce(ch.binding.challengeNonce) && Signs(world, ch, signer)
            && WireId(ch.interactionId) && En.IsUuid(ch.binding.challengeStepId)
  {
    hide Compute, WireId, En.IsUuid, Signature, Nonce, RequirementsProblem, BoundNonce, ChallengeNonce;
    if ChallengeNonce(ch.binding.challengeNonce) {
      BoundNonceIsNonce(world, ch.binding);
    } else {
      NoBoundNonce(world, ch.binding);
    }
  }

  /** The shape of the identifiers is only looked at after something was signed: a payment fails that late exactly when
      everything else is in order and one of them is malformed. */
  lemma FailsAfterSigningExactly(world: World, ch: Challenge, signer: Signer)
    requires Sound(world)
    ensures PayEmailChallenge(world, Some(ch), Some(signer)) == Failure(BadStep) <==>
            && signer.address != "" && ChallengeProblem(ch).None? && Payable(world, ch)
            && ChallengeNonce(ch.binding.challengeNonce) && Signs(world, ch, signer)
            && (!WireId(ch.interactionId) || !En.IsUuid(ch.binding.challengeStepId))
  {
    hide Compute, WireId, En.IsUuid, Signature, Nonce, RequirementsProblem, BoundNonce, ChallengeNonce;
    if ChallengeNonce(ch.binding.challengeNonce) {
      BoundNonceIsNonce(world, ch.binding);
    } else {
      NoBoundNonce(world, ch.binding);
    }
  }

  lemma NoBoundNonce(world: World, binding: Binding)
    requires !ChallengeNonce(binding.challengeNonce)
    ensures BoundNonce(world.fold, world.keccak, binding).Failure?
  {
  }

  /** What extraction settles in advance. */
  lemma ExtractedIsChecked(part: Attachment)
    requires ExtractEmailChallenge(part).Success?
    ensures part.Json? && part.wire.step == "challenge" && part.wire.protocol == PROTOCOL
    ensures var ch := ExtractEmailChallenge(part).value;
            && ChallengeProblem(ch).None? && ChallengeNonce(ch.binding.challengeNonce)
            && WireId(ch.interactionId) && En.IsUuid(ch.binding.challengeStepId)
            && ch.interactionId == part.wire.interactionId && ch.binding == WireBinding(part.wire)
            && ch.requirements == part.wire.requirements && ch.expiresAt == part.wire.expiresAt
  {
  }

  /** No late failure: a challenge that was extracted is paid as soon as its network and scheme are supported, its
      expiry can be read and lies ahead, the clock leaves room for the window, and the signer returns a 65-byte
      signature. */
  lemma NoLateFailure(world: World, part: Attachment, signer: Signer)
    requires Sound(world) && EARLIEST <= world.now <= LATEST
    requires ExtractEmailChallenge(part).Success? && signer.address != ""
    ensures var ch := ExtractEmailChallenge(part).value;
            && ChallengeProblem(ch).None? && ChallengeNonce(ch.binding.challengeNonce)
            && (Supported(world, ch) ==> Payable(world, ch))
            && (PayEmailChallenge(world, Some(ch), Some(signer)).Success?
                <==> Supported(world, ch) && Signs(world, ch, signer))
  {
    hide Compute, WireId, En.IsUuid, Signs, ChallengeProblem, ExtractEmailChallenge, PayEmailChallenge;
    var ch := ExtractEmailChallenge(part).value;
    ExtractedIsChecked(part);
    PaysExactly(world, ch, signer);
    if world.parseTime(ch.expiresAt).Some? {
      DefaultsNeverFail(world.parseTime(ch.expiresAt).value, world.now);
    }
  }

  /** What a payment carries: the interaction and the challenge step it answers, exactly the required amount and payee
      on the required network, and the nonce bound to this very step; its window has room to settle. */
  lemma PaymentIsBound(world: World, part: Attachment, signer: Signer)
    requires Sound(world) && EARLIEST <= world.now <= LATEST && ExtractEmailChallenge(part).Success?
    requires PayEmailChallenge(world, Some(ExtractEmailChallenge(part).value), Some(signer)).Success?
    ensures var ch := ExtractEmailChallenge(part).value;
            var step := PayEmailChallenge(world, Some(ch), Some(signer)).value;
            && step.interactionId == part.wire.interactionId && step.prevStepId == part.wire.stepId
            && step.stepId == world.freshId
            && step.payment.value == part.wire.requirements.maxAmountRequired
            && step.payment.to == part.wire.requirements.payTo
            && step.payment.from == signer.address && step.payment.network == part.wire.requirements.network
            && step.payment.network in {"base", "base-sepolia"}
            && BoundTo(world.fold, world.keccak, WireBinding(part.wire), step.payment.nonce)
            && Shows(step.payment.validAfter, world.now - 300)
            && exists amount: nat, before: int ::
                 && Shows(step.payment.value, amount) && Shows(step.payment.validBefore, before)
                 && world.now + 60 <= before <= world.now + 86100
                 && (world.parseTime(part.wire.expiresAt).Some? ==>
                       var end := Wrap(world.parseTime(part.wire.expiresAt).value + 300);
                       && (end < world.now + 60 ==> before == world.now + 60)
                       && (end > world.now + 86100 ==> before == world.now + 86100)
                       && (world.now + 60 <= end <= world.now + 86100 ==> before == end))
                 && Some(step.payment.signature) == signer.sign(
                      TokenDomain(part.wire.requirements.name, part.wire.requirements.version,
                                  if step.payment.network == "base" then 8453 else 84532, part.wire.requirements.asset),
                      Authorization(signer.address, part.wire.requirements.payTo, amount, world.now - 300, before,
                                    step.payment.nonce))
  {
    hide Compute, WireId, En.IsUuid, Signature, Nonce, HexEncode, Preimage, ExtractEmailChallenge, Signs, BoundTo,
         Shows, RequirementsProblem, Sn.FormatInteger, BoundNonce, PayEmailChallenge;
    var ch := ExtractEmailChallenge(part).value;
    ExtractedIsChecked(part);
    PaysExactly(world, ch, signer);
    PaidStep(world, ch, signer);
    DefaultsNeverFail(world.parseTime(ch.expiresAt).value, world.now);
    var step := PayEmailChallenge(world, Some(ch), Some(signer)).value;
    AmountShown(ch.requirements);
    BoundNonceIsBound(world.fold, world.keccak, ch.binding);
    var auth := AuthorizationFor(world, ch, signer);
    IntegerIsShown(auth.value);
    IntegerIsShown(auth.validAfter);
    IntegerIsShown(auth.validBefore);
    assert Shows(step.payment.value, auth.value) && Shows(step.payment.validBefore, auth.validBefore);
  }

  lemma AmountShown(pr: Requirements)
    requires RequirementsProblem(pr).None?
    ensures Digits(pr.maxAmountRequired) && Sn.FormatInteger(DecimalValue(pr.maxAmountRequired)) == pr.maxAmountRequired
  {
    DecimalOfValue(pr.maxAmountRequired);
  }

  /** The step a successful payment builds, from the authorization that was signed. */
  lemma PaidStep(world: World, ch: Challenge, signer: Signer)
    requires Sound(world) && PayEmailChallenge(world, Some(ch), Some(signer)).Success?
    ensures ChallengeProblem(ch).None? && ChallengeNonce(ch.binding.challengeNonce) && Payable(world, ch)
    ensures var auth := AuthorizationFor(world, ch, signer);
            var signature := signer.sign(DomainOf(ch.requirements), auth);
            && signature.Some?
            && PayEmailChallenge(world, Some(ch), Some(signer)).value
               == Step(ch.interactionId, world.freshId, ch.binding.challengeStepId,
                       Payment(ch.requirements.network, signature.value, signer.address, ch.requirements.payTo,
                               Sn.FormatInteger(auth.value), Sn.FormatInteger(auth.validAfter),
                               Sn.FormatInteger(auth.validBefore), auth.nonce))
  {
    hide Compute, WireId, En.IsUuid, Signature, Nonce, RequirementsProblem, BoundNonce, ChallengeNonce,
         Sn.FormatInteger;
    PaysExactly(world, ch, signer);
  }
}
