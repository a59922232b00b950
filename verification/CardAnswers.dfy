/** What a card answers, byte for byte, in terms of what it was made with: which APDUs carry a command,
    what each command answers and changes, and whose handle a signing answer carries over any run. */
module CardAnswers {
  import opened ByteStrings
  import opened Utf8
  import opened CardProfile
  import opened Presentation
  import opened CardMachine
  import opened SoftwareToken
  import opened CardRuns
  import opened CardCounters

  // ------------------------------------------------------------------
  // APDUs
  // ------------------------------------------------------------------

  /** A header alone, a command with one length byte, or one with the two bytes of an extended length that
      a zero announces. */
  predicate Spells(apdu: Bytes, ins: byte, data: Bytes) {
    && |apdu| >= 4 && apdu[..2] == [0x80, ins]
    && (|| (|apdu| == 4 && data == [])
        || ([|data|] <= apdu[4..] && (data != [] || |apdu| < 7) && data <= apdu[5..])
        || (|apdu| >= 7 && apdu[4] == 0 && Word(apdu[5], apdu[6]) == |data| && data <= apdu[7..]))
  }

  /** A card takes an APDU for a command exactly when it spells one, and refuses any other with the status
      word for a wrong class or else for a wrong length. */
  lemma ParseIff(apdu: Bytes, ins: byte, data: Bytes)
    ensures Parse(apdu) == Ok(Command(ins, data)) <==> Spells(apdu, ins, data)
    ensures Parse(apdu).Err? ==> Parse(apdu).error == if |apdu| >= 4 && apdu[0] != 0x80 then 0x6E00 else 0x6700
  {
    ParsedIsSpelled(apdu);
    if Spells(apdu, ins, data) { SpelledIsParsed(apdu, ins, data); }
  }

  lemma ParsedIsSpelled(apdu: Bytes)
    ensures Parse(apdu).Ok? ==> Spells(apdu, Parse(apdu).value.ins, Parse(apdu).value.data)
  {
    if Parse(apdu).Ok? {
      var data := Parse(apdu).value.data;
      assert apdu[..2] == [apdu[0], apdu[1]];
      if |apdu| >= 7 && apdu[4] == 0 {
        WordReads(apdu[5..7]);
        assert data == apdu[7..][..|data|];
      } else if |apdu| > 4 {
        assert data == apdu[5..][..|data|];
        assert [|data|] == apdu[4..][..1];
      }
    }
  }

  lemma SpelledIsParsed(apdu: Bytes, ins: byte, data: Bytes)
    requires Spells(apdu, ins, data)
    ensures Parse(apdu) == Ok(Command(ins, data))
  {
    assert apdu[0] == apdu[..2][0] && apdu[1] == apdu[..2][1];
    if |apdu| >= 7 && apdu[4] == 0 {
      WordReads(apdu[5..7]);
      assert [|data|] <= apdu[4..] ==> apdu[4..][0] == |data|;
      assert data == apdu[7..][..|data|] == apdu[7..7 + |data|];
    } else if |apdu| > 4 {
      assert apdu[4..][0] == [|data|][0];
      assert apdu[4] == |data|;
      assert data == apdu[5..][..|data|] == apdu[5..5 + |data|];
    }
  }

  // ------------------------------------------------------------------
  // The answer to each command
  // ------------------------------------------------------------------

  lemma StatusBytes()
    ensures SwBytes(SW_OK) == [0x90, 0x00] && SwBytes(SW_BLOCKED) == [0x69, 0x83]
    ensures SwBytes(SW_SECURITY_NOT_SATISFIED) == [0x69, 0x82] && SwBytes(SW_CONDITIONS_NOT_SATISFIED) == [0x69, 0x85]
    ensures SwBytes(SW_WRONG_LENGTH) == [0x67, 0x00] && SwBytes(SW_WRONG_DATA) == [0x6A, 0x80]
    ensures SwBytes(SW_INS_NOT_SUPPORTED) == [0x6D, 0x00] && SwBytes(SW_CLA_NOT_SUPPORTED) == [0x6E, 0x00]
    ensures SwBytes(SW_ALREADY_PERSONALIZED) == [0x6A, 0x89]
  {
    hide BigEndian;
    TwoBytes(SW_OK);
    TwoBytes(SW_BLOCKED);
    TwoBytes(SW_SECURITY_NOT_SATISFIED);
    TwoBytes(SW_CONDITIONS_NOT_SATISFIED);
    TwoBytes(SW_WRONG_LENGTH);
    TwoBytes(SW_WRONG_DATA);
    TwoBytes(SW_INS_NOT_SUPPORTED);
    TwoBytes(SW_CLA_NOT_SUPPORTED);
    TwoBytes(SW_ALREADY_PERSONALIZED);
  }

  lemma TriesBytes(left: nat)
    requires left < 0x10
    ensures SwBytes(SW_WRONG_PIN + left) == [0x63, 0xC0 + left]
  {
    TwoBytes(SW_WRONG_PIN + left);
  }

  /** What the data of a VERIFY or UNBLOCK command says. */
  function Said(data: Bytes): Bytes {
    if IsUtf8(data) then data else [0x00]
  }

  /** VERIFY.  A blocked card says so; what cannot be compared is refused and costs nothing; the duress PIN
      opens the duress slot and the normal PIN, when it is not the same, the normal one, and either fills
      the counter; anything else locks the card, costs one try, and is told how many are left. */
  lemma VerifyAnswers(H: Hash, cfg: Config, s: CardState, data: Bytes)
    requires s.selected && s.tries <= 3
    ensures var e, x := Execute(H, cfg, s, Command(0x20, data)), Said(data);
            && (s.tries <= 0 ==> e == Effect(s, [0x69, 0x83]))
            && (s.tries > 0 && !(IsAscii(x) && IsAscii(cfg.normal) && IsAscii(cfg.duress)) ==> e == Effect(s, [0x6A, 0x80]))
            && (s.tries > 0 && IsAscii(x) && IsAscii(cfg.normal) && IsAscii(cfg.duress) ==>
                  && (x == cfg.duress ==> e == Effect(s.(unlocked := Some(Duress), tries := 3), [0x90, 0x00]))
                  && (x == cfg.normal != cfg.duress ==> e == Effect(s.(unlocked := Some(Normal), tries := 3), [0x90, 0x00]))
                  && (x != cfg.normal && x != cfg.duress ==>
                        e == Effect(s.(unlocked := None, tries := s.tries - 1),
                                    if s.tries == 1 then [0x69, 0x83] else [0x63, 0xC0 + (s.tries - 1)])))
  {
    hide IsUtf8, IsAscii, SwBytes;
    StatusBytes();
    if s.tries > 0 { TriesBytes(s.tries - 1); }
  }

  /** UNBLOCK.  It neither locks nor unlocks. */
  lemma UnblockAnswers(H: Hash, cfg: Config, s: CardState, data: Bytes)
    requires s.selected && s.pukTries <= 10
    ensures var e, x := Execute(H, cfg, s, Command(0x2C, data)), Said(data);
            && (s.pukTries <= 0 ==> e == Effect(s, [0x69, 0x83]))
            && (s.pukTries > 0 && !(IsAscii(x) && IsAscii(cfg.puk)) ==> e == Effect(s, [0x6A, 0x80]))
            && (s.pukTries > 0 && IsAscii(x) && IsAscii(cfg.puk) ==>
                  && (x == cfg.puk ==> e == Effect(s.(tries := 3, pukTries := 10), [0x90, 0x00]))
                  && (x != cfg.puk ==> e == Effect(s.(pukTries := s.pukTries - 1), [0x63, 0xC0 + (s.pukTries - 1)])))
  {
    hide IsUtf8, IsAscii, SwBytes;
    StatusBytes();
    if s.pukTries > 0 { TriesBytes(s.pukTries - 1); }
  }

  /** SELECT names the profile, "id.polaris.card.1", its version and the tries left, and drops any earlier
      authentication.  Every other command needs it first, and an unknown one is refused. */
  lemma SelectAnswers(H: Hash, cfg: Config, s: CardState, c: Command)
    requires 0 <= s.tries <= 3
    ensures c.ins == 0xA4 ==>
              Execute(H, cfg, s, c)
              == Effect(s.(selected := true, unlocked := None),
                        [0x69, 0x64, 0x2E, 0x70, 0x6F, 0x6C, 0x61, 0x72, 0x69, 0x73, 0x2E, 0x63, 0x61, 0x72, 0x64, 0x2E, 0x31]
                        + [1, s.tries] + [0x90, 0x00])
    ensures c.ins != 0xA4 && !s.selected ==> Execute(H, cfg, s, c) == Effect(s, [0x69, 0x85])
    ensures s.selected && c.ins !in {0xA4, 0x20, 0x2C, 0x30, 0x34, 0x47, 0xDA} ==> Execute(H, cfg, s, c) == Effect(s, [0x6D, 0x00])
  {
    hide SwBytes, VerifyPin, Unblock, GetCardObject, SignChallenge, GenerateKeypair, PutCardObject;
    StatusBytes();
  }

  /** GET CARD OBJECT and PUT CARD OBJECT. */
  lemma ObjectAnswers(H: Hash, cfg: Config, s: CardState, data: Bytes)
    requires s.selected
    ensures Execute(H, cfg, s, Command(0x30, data))
            == Effect(s, if s.unlocked == None then [0x69, 0x82] else if s.cardObject == None then [0x69, 0x85]
                         else s.cardObject.value + [0x90, 0x00])
    ensures Execute(H, cfg, s, Command(0xDA, data))
            == if s.life != Blank then Effect(s, [0x6A, 0x89])
               else if Decoding(data).Err? then Effect(s, [0x6A, 0x80])
               else Effect(s.(cardObject := Some(data), life := Personalized), [0x90, 0x00])
  {
    hide SwBytes, Decoding;
    StatusBytes();
  }

  /** GENERATE KEYPAIR answers both public keys, the normal slot's first, once in the life of a card. */
  lemma GenerateAnswers(H: Hash, cfg: Config, s: CardState, data: Bytes)
    requires s.selected
    ensures var e := Execute(H, cfg, s, Command(0x47, data));
            && (s.life != Blank || s.generated ==> e == Effect(s, [0x6A, 0x89]))
            && (s.life == Blank && !s.generated && cfg.generator == None ==> e == Effect(s, [0x69, 0x85]))
            && (s.life == Blank && !s.generated && cfg.generator.Some? ==>
                  var n, d := Generated(cfg.generator.value, Normal), Generated(cfg.generator.value, Duress);
                  e == Effect(s.(generated := true),
                              if |n| > 0xFF || |d| > 0xFF then [0x6A, 0x80] else [|n|] + n + [|d|] + d + [0x90, 0x00]))
  {
    hide SwBytes, Generated;
    StatusBytes();
  }

  /** The secret a slot was made with. */
  function SecretOf(cfg: Config, slot: Slot): Option<Bytes> {
    match slot
    case Duress => cfg.secretDuress
    case Normal => Some(cfg.secretNormal)
  }

  /** The body of a presentation by a slot: challenge, scope, and the handle of the slot's own secret. */
  function BodyBy(H: Hash, cfg: Config, slot: Slot, scope: Text, challenge: Bytes): (body: Bytes)
    requires SecretOf(cfg, slot).Some? && 16 <= |challenge| <= 0xFFFF && |scope| <= 0xFFFF
    ensures ReadBody(body) == Some(Signing(challenge, scope, PairwiseHandle(H, SecretOf(cfg, slot).value, scope)))
  {
    BodyReads(challenge, scope, PairwiseHandle(H, SecretOf(cfg, slot).value, scope));
    ResponseBody(challenge, scope, PairwiseHandle(H, SecretOf(cfg, slot).value, scope)).value
  }

  /** What SIGN CHALLENGE answers for a scope and a challenge when a slot is open.  A slot without a secret,
      a challenge of fewer than 16 bytes or more than its length bytes can say, and a signature too long to
      report are refused as wrong data; a card that has no signer says that it cannot. */
  function Signed(H: Hash, cfg: Config, slot: Slot, scope: Text, challenge: Bytes): Bytes
    requires |scope| <= 0xFF
  {
    var secret := SecretOf(cfg, slot);
    if secret == None || !(16 <= |challenge| <= 0xFFFF) then [0x6A, 0x80]
    else if cfg.signer == None then [0x69, 0x85]
    else
      var signature := SlotSign(cfg.signer.value, slot, BodyBy(H, cfg, slot, scope, challenge));
      if |signature| > 0xFFFF then [0x6A, 0x80]
      else [32] + PairwiseHandle(H, secret.value, scope) + [|signature| / 0x100, |signature| % 0x100] + signature + [0x90, 0x00]
  }

  /** SIGN CHALLENGE changes nothing, and needs an open slot, an object, and data that spells a scope. */
  lemma SignAnswers(H: Hash, cfg: Config, s: CardState, data: Bytes)
    requires s.selected
    ensures Execute(H, cfg, s, Command(0x34, data))
            == Effect(s, if s.unlocked == None then [0x69, 0x82] else if s.cardObject == None then [0x69, 0x85]
                         else if data == [] || |data| <= data[0] then [0x67, 0x00]
                         else if !IsUtf8(data[1..1 + data[0]]) then [0x6A, 0x80]
                         else Signed(H, cfg, s.unlocked.value, data[1..1 + data[0]], data[1 + data[0]..]))
  {
    hide SwBytes, IsUtf8, PairwiseHandle, SignFor, Signed;
    StatusBytes();
    if s.unlocked.Some? && s.cardObject.Some? && data != [] {
      var n: nat := data[0];
      if |data| >= 1 + n && IsUtf8(data[1..1 + n]) {
        SignForIsSigned(H, cfg, s, s.unlocked.value, data[1..1 + n], data[1 + n..]);
      }
    }
  }

  lemma SignForIsSigned(H: Hash, cfg: Config, s: CardState, slot: Slot, scope: Text, challenge: Bytes)
    requires |scope| <= 0xFF
    ensures SignFor(H, cfg, s, slot, scope, challenge) == Effect(s, Signed(H, cfg, slot, scope, challenge))
  {
    hide SwBytes, IsUtf8, PairwiseHandle, ResponseBody, BigEndian;
    StatusBytes();
    var secret := SecretOf(cfg, slot);
    if secret.Some? {
      BodyReads(challenge, scope, PairwiseHandle(H, secret.value, scope));
      if 16 <= |challenge| <= 0xFFFF && cfg.signer.Some? {
        var signature := SlotSign(cfg.signer.value, slot, BodyBy(H, cfg, slot, scope, challenge));
        if |signature| <= 0xFFFF { TwoBytes(|signature|); }
      }
    }
  }

  /** A card is made locked, unselected and with full counters, and a power cycle makes it locked and
      unselected again, and nothing else: what has been tried stays tried.  Until it is selected it answers
      every other command that it cannot. */
  lemma PowerCycleForgets(H: Hash, cfg: Config, s: CardState, cardObject: Option<Bytes>, ins: byte, data: Bytes)
    ensures Made(cardObject) == CardState(false, None, 3, 10, cardObject, if cardObject == None then Blank else Personalized, false)
    ensures After(H, cfg, s, PowerCycle)
            == Effect(CardState(false, None, s.tries, s.pukTries, s.cardObject, s.life, s.generated), [])
    ensures ins != 0xA4 ==>
              Execute(H, cfg, After(H, cfg, s, PowerCycle).state, Command(ins, data))
              == Effect(After(H, cfg, s, PowerCycle).state, [0x69, 0x85])
  {
    hide SwBytes;
    StatusBytes();
  }

  // ------------------------------------------------------------------
  // Whose handle and signature an answer carries
  // ------------------------------------------------------------------

  /** The event is a VERIFY, and this is what it says. */
  predicate Enters(e: Event, pin: Bytes) {
    Carries(e, 0x20) && Said(Parse(e.apdu).value.data) == pin
  }

  /** A right PIN opens the slot it belongs to, and nothing else changes which slot is open without
      closing it. */
  lemma StepOpensSlot(H: Hash, cfg: Config, s: CardState, e: Event)
    requires Sound(s) && After(H, cfg, s, e).state.unlocked.Some?
    ensures GuessOf(cfg, s, e) == RightPin ==>
              exists pin :: Enters(e, pin) && After(H, cfg, s, e).state.unlocked == Some(if pin == cfg.duress then Duress else Normal)
    ensures GuessOf(cfg, s, e) != RightPin ==> After(H, cfg, s, e).state.unlocked == s.unlocked
  {
    hide Decoding, Parse, SwBytes, SignChallenge, KeysPayload, Generated, SelectPayload, IsAscii, IsUtf8;
    if Carries(e, INS_SIGN_CHALLENGE) { SigningKeepsState(H, cfg, s, Parse(e.apdu).value.data); }
    if GuessOf(cfg, s, e) == RightPin { assert Enters(e, Said(Parse(e.apdu).value.data)); }
  }

  /** The PIN at j opened the slot, and nothing has closed it by i. */
  ghost predicate SlotOpenSince(H: Hash, cfg: Config, s: CardState, events: seq<Event>, j: nat, i: nat, pin: Bytes, slot: Slot)
    requires j < i <= |events|
  {
    OpenSince(H, cfg, s, events, j, i) && Enters(events[j], pin) && slot == if pin == cfg.duress then Duress else Normal
  }

  lemma {:induction false} SlotOpenedByPin(H: Hash, cfg: Config, s: CardState, events: seq<Event>, i: nat)
    requires Sound(s) && s.unlocked == None && i <= |events|
    requires Run(H, cfg, s, events[..i]).unlocked.Some?
    ensures exists j, pin :: 0 <= j < i && SlotOpenSince(H, cfg, s, events, j, i, pin, Run(H, cfg, s, events[..i]).unlocked.value)
    decreases i
  {
    hide After, Sound, GuessOf, Locks, Run, Enters;
    RunOfNothing(H, cfg, s, events);
    if i > 0 {
      var t := Run(H, cfg, s, events[..i - 1]);
      RunExtends(H, cfg, s, events, i - 1);
      RunKeepsSound(H, cfg, s, events[..i - 1]);
      StepOpens(H, cfg, t, events[i - 1]);
      StepOpensSlot(H, cfg, t, events[i - 1]);
      var slot := Run(H, cfg, s, events[..i]).unlocked.value;
      if GuessOf(cfg, t, events[i - 1]) == RightPin {
        var pin :| Enters(events[i - 1], pin) && Some(slot) == Some(if pin == cfg.duress then Duress else Normal);
        assert SlotOpenSince(H, cfg, s, events, i - 1, i, pin, slot);
      } else {
        SlotOpenedByPin(H, cfg, s, events, i - 1);
        var j, pin :| 0 <= j < i - 1 && SlotOpenSince(H, cfg, s, events, j, i - 1, pin, slot);
        assert SlotOpenSince(H, cfg, s, events, j, i, pin, slot);
      }
    }
  }

  /** An answer to a signing command: the handle of a secret, and a slot's signature over the challenge,
      the scope and this handle. */
  predicate SignsWith(H: Hash, cfg: Config, slot: Slot, secret: Option<Bytes>, data: Bytes, response: Bytes) {
    && data != [] && |data| > data[0] && IsUtf8(data[1..1 + data[0]])
    && secret.Some? && cfg.signer.Some?
    && var scope: Text, challenge := data[1..1 + data[0]], data[1 + data[0]..];
       var handle := PairwiseHandle(H, secret.value, scope);
       && 16 <= |challenge|
       && ResponseBody(challenge, scope, handle).Ok?
       && var signature := SlotSign(cfg.signer.value, slot, ResponseBody(challenge, scope, handle).value);
          && |signature| <= 0xFFFF
          && response == [32] + handle + [|signature| / 0x100, |signature| % 0x100] + signature + [0x90, 0x00]
  }

  lemma OkIsSigned(H: Hash, cfg: Config, s: CardState, e: Event)
    requires Carries(e, 0x34) && IsOk(After(H, cfg, s, e).response)
    ensures s.unlocked.Some?
    ensures SignsWith(H, cfg, s.unlocked.value, SecretOf(cfg, s.unlocked.value), Parse(e.apdu).value.data, After(H, cfg, s, e).response)
  {
    hide Parse, IsOk, SwBytes, PairwiseHandle, IsUtf8, ResponseBody, SignChallenge;
    StatusBytes();
    OkStatus(SW_SECURITY_NOT_SATISFIED);
    OkStatus(SW_CONDITIONS_NOT_SATISFIED);
    OkStatus(SW_WRONG_LENGTH);
    OkStatus(SW_WRONG_DATA);
    var data := Parse(e.apdu).value.data;
    if s.selected {
      SignAnswers(H, cfg, s, data);
      var slot, scope, challenge := s.unlocked.value, data[1..1 + data[0]], data[1 + data[0]..];
      BodyReads(challenge, scope, PairwiseHandle(H, SecretOf(cfg, slot).value, scope));
    }
  }

  /** Over every run: whatever a card signs, it signs for a challenge of 16 bytes or more, with the slot and
      under the handle of the secret that belong to the PIN that was last entered right, with no power
      cycle, SELECT or wrong PIN since. */
  lemma SignedUnderPin(H: Hash, cfg: Config, s: CardState, events: seq<Event>, i: nat)
    requires Sound(s) && s.unlocked == None && i < |events|
    requires Carries(events[i], 0x34) && IsOk(Responses(H, cfg, s, events)[i])
    ensures exists j, pin ::
              && 0 <= j < i && OpenSince(H, cfg, s, events, j, i) && Enters(events[j], pin)
              && SignsWith(H, cfg, if pin == cfg.duress then Duress else Normal,
                           if pin == cfg.duress then cfg.secretDuress else Some(cfg.secretNormal),
                           Parse(events[i].apdu).value.data, Responses(H, cfg, s, events)[i])
  {
    hide Run, Responses, Parse, IsOk, OpenSince, Enters, SignsWith, After;
    ResponseAt(H, cfg, s, events, i);
    var t := Run(H, cfg, s, events[..i]);
    OkIsSigned(H, cfg, t, events[i]);
    SlotOpenedByPin(H, cfg, s, events, i);
    var j, pin :| 0 <= j < i && SlotOpenSince(H, cfg, s, events, j, i, pin, t.unlocked.value);
  }

  // ------------------------------------------------------------------
  // A card without a duress PIN
  // ------------------------------------------------------------------

  /** The comparand of a card whose holder enrolled no duress PIN is as long as the PIN, and begins with
      the NUL that no keypad sends. */
  lemma ComparandHasNul(normal: Text, random: Bytes)
    requires |random| >= Characters(normal) && IsAscii(random)
    ensures var u := Comparand(normal, None, random);
            |u| == (if Characters(normal) == 0 then 1 else Characters(normal)) && u[0] == 0 && IsAscii(u)
  {
    hide IsUtf8, Characters;
  }

  /** Texts without a NUL never open the duress slot of a card whose comparand has one and is longer than
      the NUL that other data is taken for: over any run, whatever the run sends besides. */
  lemma {:induction false} NeverDuress(H: Hash, cfg: Config, s: CardState, events: seq<Event>)
    requires s.unlocked != Some(Duress) && |cfg.duress| >= 2 && !NoNul(cfg.duress)
    requires forall i :: 0 <= i < |events| && Carries(events[i], 0x20) && IsUtf8(Parse(events[i].apdu).value.data) ==>
               NoNul(Parse(events[i].apdu).value.data)
    ensures Run(H, cfg, s, events).unlocked != Some(Duress)
    decreases |events|
  {
    hide After, Parse, IsUtf8, NoNul;
    if events != [] {
      StepNotDuress(H, cfg, s, events[0]);
      assert forall i :: 0 <= i < |events| - 1 ==> events[1..][i] == events[i + 1];
      NeverDuress(H, cfg, After(H, cfg, s, events[0]).state, events[1..]);
    }
  }

  lemma StepNotDuress(H: Hash, cfg: Config, s: CardState, e: Event)
    requires s.unlocked != Some(Duress) && |cfg.duress| >= 2 && !NoNul(cfg.duress)
    requires Carries(e, 0x20) && IsUtf8(Parse(e.apdu).value.data) ==> NoNul(Parse(e.apdu).value.data)
    ensures After(H, cfg, s, e).state.unlocked != Some(Duress)
  {
    hide Decoding, Parse, SwBytes, SignChallenge, KeysPayload, Generated, SelectPayload, IsAscii, IsUtf8, NoNul;
    if Carries(e, INS_SIGN_CHALLENGE) { SigningKeepsState(H, cfg, s, Parse(e.apdu).value.data); }
  }

  // ------------------------------------------------------------------
  // Cards that are not made
  // ------------------------------------------------------------------

  /** Which cards a constructor refuses, and as what. */
  lemma RefusedCards(cardObject: Option<Bytes>, normal: Text, duress: Text, secretDuress: Option<Bytes>, error: CardError)
    ensures var refusal, ascii := Admit(cardObject, normal, Some(duress), secretDuress), IsAscii(normal) && IsAscii(duress);
            && (refusal == Some(Uncomparable) <==> !ascii)
            && (refusal == Some(SamePins) <==> ascii && normal == duress)
            && (refusal == Some(PinLengths) <==> ascii && |normal| != |duress|)
            && (refusal == Some(NoDuressSlot) <==> ascii && normal != duress && |normal| == |duress| && secretDuress == None)
            && (refusal == Some(Unpresentable(error))
                <==> && ascii && normal != duress && |normal| == |duress| && secretDuress.Some?
                     && cardObject.Some? && Decoding(cardObject.value) == Err(error))
    ensures Admit(cardObject, normal, None, secretDuress) == Some(Unpresentable(error))
            <==> cardObject.Some? && Decoding(cardObject.value) == Err(error)
    ensures Admit(cardObject, normal, None, secretDuress) == None <==> cardObject == None || Decoding(cardObject.value).Ok?
  {
    hide Decoding, IsUtf8, IsAscii, Characters;
    if IsAscii(normal) && IsAscii(duress) {
      AsciiCharacters(normal);
      AsciiCharacters(duress);
    }
  }
}
