/** The card as an object that is talked to in APDUs.  Every method is proved to be one step of
    CardMachine. */
module SoftwareToken {
  import opened ByteStrings
  import opened Utf8
  import opened CardProfile
  import opened Presentation
  import opened CardMachine

  datatype RefusedCard = Uncomparable | SamePins | PinLengths | NoDuressSlot | Unpresentable(error: CardError)

  /** The comparand of a card whose holder enrolled no duress PIN: a NUL, then as many characters of
      the random text as the PIN has beyond its first. */
  function Unmatchable(length: nat, random: Bytes): Bytes
    requires |random| >= length
  {
    [0] + random[..if length == 0 then 0 else length - 1]
  }

  /** The checks of the constructor, in their order. */
  function Admit(cardObject: Option<Bytes>, normal: Text, duress: Option<Text>, secretDuress: Option<Bytes>): Option<RefusedCard> {
    if duress.Some? && Compare(normal, duress.value) == None then Some(Uncomparable)
    else if duress.Some? && normal == duress.value then Some(SamePins)
    else if duress.Some? && Characters(duress.value) != Characters(normal) then Some(PinLengths)
    else if duress.Some? && secretDuress == None then Some(NoDuressSlot)
    else if cardObject.Some? && Decoding(cardObject.value).Err? then Some(Unpresentable(Decoding(cardObject.value).error))
    else None
  }

  class Token {
    const cfg: Config
    var selected: bool
    var unlockedSlot: Option<Slot>
    var tries: int
    var pukTries: int
    var cardObject: Option<Bytes>
    var state: Lifecycle
    var generated: bool

    ghost function State(): CardState
      reads this
    {
      CardState(selected, unlockedSlot, tries, pukTries, cardObject, state, generated)
    }

    constructor (cfg: Config, cardObject: Option<Bytes>)
      ensures this.cfg == cfg && State() == Made(cardObject)
    {
      this.cfg := cfg;
      this.cardObject := cardObject;
      state := if cardObject.Some? then Personalized else Blank;
      generated := false;
      selected, unlockedSlot := false, None;
      tries, pukTries := MAX_PIN_TRIES, MAX_PUK_TRIES;
    }

    /** Makes a card, or refuses; `random` is what the random source gives for the comparand. */
    static method Make(cardObject: Option<Bytes>, normal: Text, duress: Option<Text>, puk: Text, secretNormal: Bytes,
                       secretDuress: Option<Bytes>, signer: Option<SlotSigner>, generator: Option<KeyGenerator>, random: Bytes)
      returns (r: Result<Token, RefusedCard>)
      requires |random| >= Characters(normal) && IsAscii(random)
      ensures r.Err? <==> Admit(cardObject, normal, duress, secretDuress).Some?
      ensures r.Err? ==> Some(r.error) == Admit(cardObject, normal, duress, secretDuress)
      ensures r.Ok? ==> fresh(r.value) && r.value.State() == Made(cardObject)
      ensures r.Ok? ==> r.value.cfg == Config(normal, Comparand(normal, duress, random), puk, secretNormal, secretDuress, signer, generator)
    {
      var refused := Admit(cardObject, normal, duress, secretDuress);
      if refused.Some? { return Err(refused.value); }
      var card := new Token(Config(normal, Comparand(normal, duress, random), puk, secretNormal, secretDuress, signer, generator), cardObject);
      r := Ok(card);
    }

    method Reset()
      modifies this
      ensures State() == PowerCycled(old(State()))
    {
      selected := false;
      unlockedSlot := None;
    }

    method Transmit(H: Hash, apdu: Bytes) returns (response: Bytes)
      modifies this
      ensures Effect(State(), response) == Step(H, cfg, old(State()), apdu)
    {
      var answered := TryTransmit(H, apdu);
      response := if answered == None then SwBytes(SW_WRONG_DATA) else answered.value;
    }

    /** The dispatch; None is an exception on its way to Transmit. */
    method TryTransmit(H: Hash, apdu: Bytes) returns (r: Option<Bytes>)
      modifies this
      ensures Effect(State(), Caught(r)) == Step(H, cfg, old(State()), apdu)
    {
      if |apdu| < 4 { return Some(SwBytes(SW_WRONG_LENGTH)); }
      var cla, ins := apdu[0], apdu[1];
      if cla != CLA { return Some(SwBytes(SW_CLA_NOT_SUPPORTED)); }
      var data: Bytes := [];
      if |apdu| > 4 {
        var lc: int := apdu[4];
        if lc == 0 && |apdu| >= 7 {
          lc := FromBigEndian(apdu[5..7]);
          if |apdu| < 7 + lc { return Some(SwBytes(SW_WRONG_LENGTH)); }
          data := apdu[7..7 + lc];
        } else {
          if |apdu| < 5 + lc { return Some(SwBytes(SW_WRONG_LENGTH)); }
          data := apdu[5..5 + lc];
        }
      }
      assert Parse(apdu) == Ok(Command(ins, data));
      hide Parse, VerifyPin, Unblock, SignChallenge, GenerateKeypair, PutCardObject, GetCardObject, Select;
      if ins == INS_SELECT {
        var a := SelectApplication();
        return Some(a);
      }
      if !selected { return Some(SwBytes(SW_CONDITIONS_NOT_SATISFIED)); }
      if ins == INS_VERIFY_PIN {
        r := VerifyPinData(data);
      } else if ins == INS_UNBLOCK {
        r := UnblockData(data);
      } else if ins == INS_GET_CARD_OBJECT {
        var a := ReadCardObject();
        r := Some(a);
      } else if ins == INS_SIGN_CHALLENGE {
        r := SignChallengeData(H, data);
      } else if ins == INS_GENERATE_KEYPAIR {
        r := GenerateBothKeypairs();
      } else if ins == INS_PUT_CARD_OBJECT {
        var a := LoadCardObject(data);
        r := Some(a);
      } else {
        r := Some(SwBytes(SW_INS_NOT_SUPPORTED));
      }
    }

    method SelectApplication() returns (response: Bytes)
      modifies this`selected, this`unlockedSlot
      ensures Effect(State(), response) == Select(old(State()))
    {
      hide SwBytes, SelectPayload;
      selected := true;
      unlockedSlot := None;
      response := SelectPayload(tries) + SwBytes(SW_OK);
    }

    method VerifyPinData(data: Bytes) returns (r: Option<Bytes>)
      modifies this`tries, this`unlockedSlot
      ensures Effect(State(), Caught(r)) == VerifyPin(cfg, old(State()), data)
    {
      if tries <= 0 { return Some(SwBytes(SW_BLOCKED)); }
      var supplied := Supplied(data);
      var normalOk := Compare(supplied, cfg.normal);
      if normalOk == None { return None; }
      var duressOk := Compare(supplied, cfg.duress);
      if duressOk == None { return None; }
      if normalOk.value || duressOk.value {
        unlockedSlot := Some(if duressOk.value then Duress else Normal);
        tries := MAX_PIN_TRIES;
        return Some(SwBytes(SW_OK));
      }
      tries := tries - 1;
      unlockedSlot := None;
      if tries <= 0 { return Some(SwBytes(SW_BLOCKED)); }
      r := Some(SwBytes(SW_WRONG_PIN + tries));
    }

    method UnblockData(data: Bytes) returns (r: Option<Bytes>)
      modifies this`tries, this`pukTries
      ensures Effect(State(), Caught(r)) == Unblock(cfg, old(State()), data)
    {
      if pukTries <= 0 { return Some(SwBytes(SW_BLOCKED)); }
      var ok := Compare(Supplied(data), cfg.puk);
      if ok == None { return None; }
      if ok.value {
        tries := MAX_PIN_TRIES;
        pukTries := MAX_PUK_TRIES;
        return Some(SwBytes(SW_OK));
      }
      pukTries := pukTries - 1;
      r := Some(SwBytes(SW_WRONG_PIN + (if pukTries > 0 then pukTries else 0)));
    }

    method ReadCardObject() returns (response: Bytes)
      ensures Effect(State(), response) == GetCardObject(State())
    {
      if unlockedSlot == None { return SwBytes(SW_SECURITY_NOT_SATISFIED); }
      if cardObject == None { return SwBytes(SW_CONDITIONS_NOT_SATISFIED); }
      response := cardObject.value + SwBytes(SW_OK);
    }

    method SignChallengeData(H: Hash, data: Bytes) returns (r: Option<Bytes>)
      ensures Effect(State(), Caught(r)) == SignChallenge(H, cfg, State(), data)
    {
      hide PairwiseHandle, ResponseBody, SignedPayload, SwBytes, SlotSign, IsUtf8;
      if unlockedSlot == None { return Some(SwBytes(SW_SECURITY_NOT_SATISFIED)); }
      if cardObject == None { return Some(SwBytes(SW_CONDITIONS_NOT_SATISFIED)); }
      if data == [] { return Some(SwBytes(SW_WRONG_LENGTH)); }
      var scopeLen: nat := data[0];
      if |data| < 1 + scopeLen { return Some(SwBytes(SW_WRONG_LENGTH)); }
      if !IsUtf8(data[1..1 + scopeLen]) { return Some(SwBytes(SW_WRONG_DATA)); }
      var scope: Text, challenge := data[1..1 + scopeLen], data[1 + scopeLen..];
      var secret := SlotSecret(cfg, unlockedSlot.value);
      if secret == None { return None; }
      var handle := PairwiseHandle(H, secret.value, scope);
      var body := ResponseBody(challenge, scope, handle);
      if body.Err? { return Some(SwBytes(SW_WRONG_DATA)); }
      if cfg.signer == None { return Some(SwBytes(SW_CONDITIONS_NOT_SATISFIED)); }
      var signature := SlotSign(cfg.signer.value, unlockedSlot.value, body.value);
      if |signature| > MAX_LEN { return None; }
      r := Some(SignedPayload(handle, signature) + SwBytes(SW_OK));
    }

    method GenerateBothKeypairs() returns (r: Option<Bytes>)
      modifies this`generated
      ensures Effect(State(), Caught(r)) == GenerateKeypair(cfg, old(State()))
    {
      if state != Blank || generated { return Some(SwBytes(SW_ALREADY_PERSONALIZED)); }
      if cfg.generator == None { return Some(SwBytes(SW_CONDITIONS_NOT_SATISFIED)); }
      var normalPub := Generated(cfg.generator.value, Normal);
      var duressPub := Generated(cfg.generator.value, Duress);
      generated := true;
      if |normalPub| > 0xFF || |duressPub| > 0xFF { return None; }
      r := Some(KeysPayload(normalPub, duressPub) + SwBytes(SW_OK));
    }

    method LoadCardObject(data: Bytes) returns (response: Bytes)
      modifies this`cardObject, this`state
      ensures Effect(State(), response) == PutCardObject(old(State()), data)
    {
      if state != Blank { return SwBytes(SW_ALREADY_PERSONALIZED); }
      var decoded := Decode(data);
      if decoded.Err? { return SwBytes(SW_WRONG_DATA); }
      cardObject := Some(data);
      state := Personalized;
      response := SwBytes(SW_OK);
    }
  }

  /** The response of a command that answered, or the one an exception is turned into. */
  function Caught(r: Option<Bytes>): Bytes {
    if r == None then SwBytes(SW_WRONG_DATA) else r.value
  }

  function Comparand(normal: Text, duress: Option<Text>, random: Bytes): Text
    requires |random| >= Characters(normal) && IsAscii(random)
  {
    if duress.Some? then duress.value
    else
      AsciiIsUtf8(Unmatchable(Characters(normal), random));
      Unmatchable(Characters(normal), random)
  }
}
