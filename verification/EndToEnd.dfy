/** An honest run over NFC, from the PIN pad to the verdict. */
module EndToEnd {
  import opened ByteStrings
  import opened Utf8
  import opened CardProfile
  import opened CardIssuance
  import opened Presentation
  import opened CardMachine
  import opened CardRuns
  import opened CardAnswers
  import opened CardReader
  import opened VerifierDevice
  import opened DeviceTheorems

  /** The slot a right PIN opens. */
  function SlotOf(cfg: Config, pin: Text): Slot {
    if pin == cfg.duress then Duress else Normal
  }

  function SlotHandle(H: Hash, cfg: Config, slot: Slot, scope: Text): Digest
    requires SlotSecret(cfg, slot).Some?
  {
    PairwiseHandle(H, SlotSecret(cfg, slot).value, scope)
  }

  /** What a slot signs for a scope and a challenge. */
  function SlotBody(H: Hash, cfg: Config, slot: Slot, scope: Text, challenge: Digest): Bytes
    requires SlotSecret(cfg, slot).Some? && |scope| <= MAX_LEN
  {
    ResponseBody(challenge, scope, SlotHandle(H, cfg, slot, scope)).value
  }

  function SlotSignature(H: Hash, cfg: Config, slot: Slot, scope: Text, challenge: Digest): Bytes
    requires SlotSecret(cfg, slot).Some? && cfg.signer.Some? && |scope| <= MAX_LEN
  {
    SlotSign(cfg.signer.value, slot, SlotBody(H, cfg, slot, scope, challenge))
  }

  /** The presentation an honest run ends in: the handle of the opened slot, that slot's signature over
      the body, and the card's object if it was asked for. */
  function SlotPresentation(H: Hash, d: Device, cfg: Config, slot: Slot, challenge: Digest, cardObject: Option<Bytes>): Presented
    requires SlotSecret(cfg, slot).Some? && cfg.signer.Some? && |d.scope| <= MAX_LEN
  {
    Presented(d.scope, challenge, SlotHandle(H, cfg, slot, d.scope), SlotSignature(H, cfg, slot, d.scope, challenge), cardObject)
  }

  const MAX_SCOPE := 222
  const MAX_PIN := 0xFF

  /** A slot can answer: it has a secret and a signer whose signature fits its length bytes. */
  predicate SlotAnswers(H: Hash, cfg: Config, slot: Slot, scope: Text, challenge: Digest) {
    && SlotSecret(cfg, slot).Some? && cfg.signer.Some? && |scope| <= MAX_SCOPE
    && |SlotSignature(H, cfg, slot, scope, challenge)| <= MAX_LEN
  }

  // ------------------------------------------------------------------
  // The steps of a reading
  // ------------------------------------------------------------------

  lemma SelectStep(H: Hash, cfg: Config, s: CardState)
    ensures var e := Step(H, cfg, s, SELECT_COMMAND);
            IsOk(e.response) && e.state == s.(selected := true, unlocked := None)
  {
    hide Parse, SwBytes, IsOk;
    FixedCommandsParse();
    OkAnswer(SelectPayload(s.tries));
  }

  /** A card can compare PINs of ASCII only. */
  predicate Comparable(cfg: Config) {
    IsAscii(cfg.normal) && IsAscii(cfg.duress)
  }

  lemma RightPinStep(H: Hash, cfg: Config, s: CardState, pin: Text)
    requires s.selected && |pin| <= MAX_PIN && (pin == cfg.normal || pin == cfg.duress)
    ensures var e := Step(H, cfg, s, VerifyPinCommand(pin).value);
            && (IsOk(e.response) <==> s.tries > 0 && Comparable(cfg))
            && (IsOk(e.response) ==> e.state == s.(unlocked := Some(SlotOf(cfg, pin)), tries := MAX_PIN_TRIES))
  {
    hide Parse, SwBytes, IsOk, IsUtf8, IsAscii;
    ShortCommandParses(INS_VERIFY_PIN, 0x00, 0x80, pin, []);
    OkStatus(SW_OK);
    OkStatus(SW_WRONG_DATA);
    OkStatus(SW_BLOCKED);
  }

  /** The 222-byte limit is the short APDU's: one length byte and the challenge share its 255. */
  lemma SignCommandFitsIff(scope: Text, challenge: Digest)
    ensures SignCommand(scope, challenge).Ok? <==> |scope| <= MAX_SCOPE
  {
  }

  lemma SignStep(H: Hash, cfg: Config, s: CardState, slot: Slot, scope: Text, challenge: Digest)
    requires s.selected && s.unlocked == Some(slot) && |scope| <= MAX_SCOPE
    ensures SignCommand(scope, challenge).Ok?
    ensures var e := Step(H, cfg, s, SignCommand(scope, challenge).value);
            && e.state == s
            && (s.cardObject.Some? && SlotAnswers(H, cfg, slot, scope, challenge) ==>
                  e.response == SignedPayload(SlotHandle(H, cfg, slot, scope), SlotSignature(H, cfg, slot, scope, challenge))
                                + SwBytes(SW_OK))
            && (!(s.cardObject.Some? && SlotAnswers(H, cfg, slot, scope, challenge)) ==> !IsOk(e.response))
  {
    hide Parse, SwBytes, IsOk, IsUtf8, PairwiseHandle, SignedPayload, SlotSign, SlotSecret;
    var data := SignData(scope, challenge);
    ShortCommandParses(INS_SIGN_CHALLENGE, 0x00, 0x00, data, []);
    assert data[1..1 + |scope|] == scope && data[1 + |scope|..] == challenge;
    assert data[0] == |scope|;
    OkStatus(SW_CONDITIONS_NOT_SATISFIED);
    OkStatus(SW_WRONG_DATA);
  }

  lemma GetStep(H: Hash, cfg: Config, s: CardState)
    requires s.selected && s.unlocked.Some? && s.cardObject.Some?
    ensures var e := Step(H, cfg, s, GET_COMMAND);
            IsOk(e.response) && Payload(e.response) == s.cardObject.value && e.state == s
  {
    hide Parse, SwBytes, IsOk;
    FixedCommandsParse();
    OkAnswer(s.cardObject.value);
    assert (s.cardObject.value + SwBytes(SW_OK))[..|s.cardObject.value|] == s.cardObject.value;
  }

  lemma PinCommandFitsIff(pin: Text)
    ensures VerifyPinCommand(pin).Ok? <==> |pin| <= MAX_PIN
  {
  }

  lemma NotOkIsNoSignature(response: Bytes)
    requires !IsOk(response)
    ensures ParseSigned(response) == None
  {
  }

  /** The reading from the opened card on. */
  lemma OpenedReading(H: Hash, d: Device, cfg: Config, s: CardState, slot: Slot, wantObject: bool, challenge: Digest)
    requires s.selected && s.unlocked == Some(slot)
    ensures var r := SignedReading(H, d, cfg, s, wantObject, challenge);
            && r.card == s
            && (r.presented.Ok? <==> s.cardObject.Some? && SlotAnswers(H, cfg, slot, d.scope, challenge))
            && (r.presented.Ok? ==>
                  r.presented.value == SlotPresentation(H, d, cfg, slot, challenge, if wantObject then s.cardObject else None))
            && (r.presented.Err? ==> r.presented.error == if |d.scope| <= MAX_SCOPE then NoPresentation else CommandDoesNotFit)
  {
    hide Step, ParseSigned, IsOk, SignCommand, Payload, SlotHandle, SlotSignature, SignedPayload, SwBytes, SlotSecret;
    SignCommandFitsIff(d.scope, challenge);
    if |d.scope| <= MAX_SCOPE {
      SignStep(H, cfg, s, slot, d.scope, challenge);
      if s.cardObject.Some? && SlotAnswers(H, cfg, slot, d.scope, challenge) {
        SignedResponseParses(SlotHandle(H, cfg, slot, d.scope), SlotSignature(H, cfg, slot, d.scope, challenge));
        GetStep(H, cfg, s);
      } else {
        NotOkIsNoSignature(Step(H, cfg, s, SignCommand(d.scope, challenge).value).response);
      }
    }
  }

  // ------------------------------------------------------------------
  // An honest run
  // ------------------------------------------------------------------

  /** Given a right PIN, a reading yields a presentation exactly when the card is not blocked, holds an
      object and can compare its PINs, the scope and the PIN fit their commands, and the opened slot can
      answer; and then it is the presentation of that slot.  Whatever comes of it, the card is left with that
      slot open once the PIN was taken. */
  lemma HonestRead(H: Hash, d: Device, cfg: Config, s: CardState, pin: Text, wantObject: bool, challenge: Digest)
    requires pin == cfg.normal || pin == cfg.duress
    ensures s.tries > 0 && Comparable(cfg) && |pin| <= MAX_PIN ==>
              var e := ReadCard(H, d, cfg, s, pin, wantObject, challenge);
              && e.card == s.(selected := true, unlocked := Some(SlotOf(cfg, pin)), tries := MAX_PIN_TRIES)
              && (e.presented.Err? ==> e.presented.error == if |d.scope| <= MAX_SCOPE then NoPresentation else CommandDoesNotFit)
    ensures var r := ReadCard(H, d, cfg, s, pin, wantObject, challenge).presented;
            && (r.Ok? <==> && s.tries > 0 && s.cardObject.Some? && Comparable(cfg) && |pin| <= MAX_PIN
                           && SlotAnswers(H, cfg, SlotOf(cfg, pin), d.scope, challenge))
            && (r.Ok? ==>
                  r.value == SlotPresentation(H, d, cfg, SlotOf(cfg, pin), challenge, if wantObject then s.cardObject else None))
  {
    hide Step, IsOk, VerifyPinCommand, SignedReading, SlotAnswers, SlotPresentation, Comparable;
    SelectStep(H, cfg, s);
    PinCommandFitsIff(pin);
    if |pin| <= MAX_PIN {
      var t := s.(selected := true, unlocked := None);
      RightPinStep(H, cfg, t, pin);
      if s.tries > 0 && Comparable(cfg) {
        OpenedReading(H, d, cfg, t.(unlocked := Some(SlotOf(cfg, pin)), tries := MAX_PIN_TRIES), SlotOf(cfg, pin), wantObject, challenge);
      }
    }
  }

  /** A reading that stops at the PIN reports the card's own answer, and leaves the card as the answer says: a
      wrong PIN costs one try. */
  lemma RefusedRead(H: Hash, d: Device, cfg: Config, s: CardState, pin: Text, wantObject: bool, challenge: Digest)
    requires s.tries <= 3
    ensures var r, u := ReadCard(H, d, cfg, s, pin, wantObject, challenge), s.(selected := true, unlocked := None);
            && (|pin| > MAX_PIN ==> r == Reading(u, Err(CommandDoesNotFit)))
            && (|pin| <= MAX_PIN && s.tries <= 0 ==> r == Reading(u, Err(PinRefused([0x69, 0x83]))))
            && (|pin| <= MAX_PIN && s.tries > 0 && !(IsAscii(pin) && Comparable(cfg)) ==> r == Reading(u, Err(PinRefused([0x6A, 0x80]))))
            && (|pin| <= MAX_PIN && s.tries > 0 && IsAscii(pin) && Comparable(cfg) && pin != cfg.normal && pin != cfg.duress ==>
                  r == Reading(u.(tries := s.tries - 1),
                               Err(PinRefused(if s.tries == 1 then [0x69, 0x83] else [0x63, 0xC0 + (s.tries - 1)]))))
  {
    hide Parse, Execute, SwBytes, IsUtf8, IsAscii, SignedReading;
    SelectStep(H, cfg, s);
    PinCommandFitsIff(pin);
    if |pin| <= MAX_PIN {
      var u := s.(selected := true, unlocked := None);
      ShortCommandParses(INS_VERIFY_PIN, 0x00, 0x80, pin, []);
      VerifyAnswers(H, cfg, u, pin);
      StatusBytes();
    }
  }

  /** The body a device checks is byte for byte the body the card signed; so with a fresh challenge an
      honest run is accepted exactly when there is a signature and it verifies over that body, the object
      was shown and is authentic, and the credential is active. */
  lemma HonestRunAccepted(H: Hash, d: Device, dev: DeviceState, cfg: Config, s: CardState, pin: Text, wantObject: bool,
                          challenge: Digest, q: Request)
    requires pin == cfg.normal || pin == cfg.duress
    requires d.scope != [] && challenge !in dev.spent && ReadCard(H, d, cfg, s, pin, wantObject, challenge).presented.Ok?
    ensures var p := ReadCard(H, d, cfg, s, pin, wantObject, challenge).presented.value;
            var slot := SlotOf(cfg, pin);
            && s.cardObject.Some? && SlotAnswers(H, cfg, slot, d.scope, challenge)
            && ResponseBody(p.challenge, p.scope, p.handle) == Ok(SlotBody(H, cfg, slot, d.scope, challenge))
            && var v := Decide(H, d, dev.(open := dev.open + {challenge}), p, q).verdict;
               && v.Ok?
               && (v.value.accepted
                   <==> && q.responseVerifier.Some?
                        && SlotSignature(H, cfg, slot, d.scope, challenge) != []
                        && Verifies(q.responseVerifier.value, SlotBody(H, cfg, slot, d.scope, challenge),
                                    SlotSignature(H, cfg, slot, d.scope, challenge))
                        && wantObject && Authentic(H, s.cardObject.value, q.cardVerifier, None, d.requirePq, q.now)
                        && Active(d, q))
  {
    hide ReadCard, Authentic, Active, Decide, PairwiseHandle, SlotSign, Verifies, SlotSecret;
    HonestRead(H, d, cfg, s, pin, wantObject, challenge);
    var p := ReadCard(H, d, cfg, s, pin, wantObject, challenge).presented.value;
    AcceptedIff(H, d, dev.(open := dev.open + {challenge}), p, q);
    DecidesHonest(H, d, dev.(open := dev.open + {challenge}), p, q);
  }

  lemma DecidesHonest(H: Hash, d: Device, dev: DeviceState, p: Presented, q: Request)
    requires ResponseBody(p.challenge, p.scope, p.handle).Ok?
    ensures Decide(H, d, dev, p, q).verdict.Ok?
  {
    hide ResponseBody, Authenticity;
  }

  /** The right PUK brings a blocked card back, with either PIN: from then on a reading yields a
      presentation whenever it would from a card that was never blocked. */
  lemma PukRestoresReading(H: Hash, d: Device, cfg: Config, s: CardState, pin: Text, wantObject: bool, challenge: Digest)
    requires s.selected && s.pukTries > 0 && IsAscii(cfg.puk) && |cfg.puk| <= MAX_PIN
    requires pin == cfg.normal || pin == cfg.duress
    ensures var e := Step(H, cfg, s, UnblockCommand(cfg.puk).value);
            && IsOk(e.response) && e.state == s.(tries := MAX_PIN_TRIES, pukTries := MAX_PUK_TRIES)
            && (ReadCard(H, d, cfg, e.state, pin, wantObject, challenge).presented.Ok?
                <==> && s.cardObject.Some? && Comparable(cfg) && |pin| <= MAX_PIN
                     && SlotAnswers(H, cfg, SlotOf(cfg, pin), d.scope, challenge))
  {
    hide Parse, SwBytes, IsOk, IsUtf8, IsAscii, ReadCard, SlotAnswers;
    ShortCommandParses(INS_UNBLOCK, 0x00, 0x80, cfg.puk, []);
    OkStatus(SW_OK);
    HonestRead(H, d, cfg, s.(tries := MAX_PIN_TRIES, pukTries := MAX_PUK_TRIES), pin, wantObject, challenge);
  }
}
