/** What holds of a card over every run: any sequence of APDUs and power cycles. */
module CardRuns {
  import opened ByteStrings
  import opened Utf8
  import opened CardProfile
  import opened Presentation
  import opened CardMachine
  import opened SoftwareToken

  // ------------------------------------------------------------------
  // Status words
  // ------------------------------------------------------------------

  lemma OkStatus(sw: nat)
    requires sw < 0x10000
    ensures IsOk(SwBytes(sw)) <==> sw == SW_OK
  {
    assert Limit(2) == 0x100 * Limit(1) && Limit(1) == 0x100 * Limit(0);
    BigEndianRoundTrip(sw, 2);
    BigEndianRoundTrip(SW_OK, 2);
    assert SwBytes(sw)[|SwBytes(sw)| - 2..] == SwBytes(sw);
  }

  lemma OkAnswer(payload: Bytes)
    ensures IsOk(payload + SwBytes(SW_OK))
  {
  }

  // ------------------------------------------------------------------
  // The invariant
  // ------------------------------------------------------------------

  /** The counters stay in range; an unlocked card is selected and has a full counter; a card is
      personalized exactly when it holds an object, and that object decodes. */
  predicate Sound(s: CardState) {
    && 0 <= s.tries <= MAX_PIN_TRIES && 0 <= s.pukTries <= MAX_PUK_TRIES
    && (s.unlocked.Some? ==> s.selected && s.tries == MAX_PIN_TRIES)
    && (s.life == Personalized <==> s.cardObject.Some?)
    && (s.cardObject.Some? ==> Decoding(s.cardObject.value).Ok?)
  }

  lemma StepKeepsSound(H: Hash, cfg: Config, s: CardState, e: Event)
    requires Sound(s)
    ensures Sound(After(H, cfg, s, e).state)
  {
    hide Decoding, Parse, SwBytes, Compare, Supplied, SignChallenge, KeysPayload, Generated, SelectPayload;
    if Carries(e, INS_SIGN_CHALLENGE) { SigningKeepsState(H, cfg, s, Parse(e.apdu).value.data); }
  }

  lemma SigningKeepsState(H: Hash, cfg: Config, s: CardState, data: Bytes)
    ensures SignChallenge(H, cfg, s, data).state == s
  {
    hide PairwiseHandle, ResponseBody, SwBytes, IsUtf8, SlotSign, SlotSecret, SignedPayload;
  }

  /** Every card that was made keeps the invariant over every run. */
  lemma {:induction false} RunKeepsSound(H: Hash, cfg: Config, s: CardState, events: seq<Event>)
    requires Sound(s)
    ensures Sound(Run(H, cfg, s, events))
    decreases |events|
  {
    hide Sound, After;
    if events != [] {
      StepKeepsSound(H, cfg, s, events[0]);
      RunKeepsSound(H, cfg, After(H, cfg, s, events[0]).state, events[1..]);
    }
  }

  lemma MadeIsSound(H: Hash, cfg: Config, cardObject: Option<Bytes>, events: seq<Event>)
    requires cardObject.Some? ==> Decoding(cardObject.value).Ok?
    ensures Sound(Run(H, cfg, Made(cardObject), events))
  {
    RunKeepsSound(H, cfg, Made(cardObject), events);
  }

  /** The response to the i-th event is the one of the state the events before it lead to. */
  lemma {:induction false} ResponseAt(H: Hash, cfg: Config, s: CardState, events: seq<Event>, i: nat)
    requires i < |events|
    ensures Responses(H, cfg, s, events)[i] == After(H, cfg, Run(H, cfg, s, events[..i]), events[i]).response
    decreases |events|
  {
    hide After;
    if i > 0 {
      ResponseAt(H, cfg, After(H, cfg, s, events[0]).state, events[1..], i - 1);
      assert events[..i][1..] == events[1..][..i - 1];
    }
  }

  // ------------------------------------------------------------------
  // A duress run looks like a normal run
  // ------------------------------------------------------------------

  /** A card with an enrolled duress PIN. */
  predicate PinsEnrolled(cfg: Config) {
    && IsAscii(cfg.normal) && IsAscii(cfg.duress) && cfg.normal != cfg.duress && |cfg.normal| == |cfg.duress|
    && cfg.secretDuress.Some?
  }

  /** It is what the constructor admits when it is given a duress PIN: no more and no less. */
  lemma EnrolledIffAdmitted(cfg: Config, cardObject: Option<Bytes>)
    ensures Admit(cardObject, cfg.normal, Some(cfg.duress), cfg.secretDuress) == None
            <==> PinsEnrolled(cfg) && (cardObject.Some? ==> Decoding(cardObject.value).Ok?)
  {
    hide Decoding, IsUtf8, IsAscii, Characters;
    if IsAscii(cfg.normal) && IsAscii(cfg.duress) {
      AsciiCharacters(cfg.normal);
      AsciiCharacters(cfg.duress);
    }
  }

  /** A card with an enrolled duress PIN and signatures of the one length a secure element emits. */
  ghost predicate Enrolled(cfg: Config) {
    && PinsEnrolled(cfg)
    && (cfg.signer.Some? ==> forall slot, body :: |SlotSign(cfg.signer.value, slot, body)| == RAW_SIGNATURE_LEN)
  }

  const RAW_SIGNATURE_LEN := 64

  /** The same event, or two VERIFY commands of one length that carry one of the two PINs each. */
  predicate SamePinClass(cfg: Config, a: Event, b: Event) {
    a == b
    || (&& Carries(a, INS_VERIFY_PIN) && Carries(b, INS_VERIFY_PIN)
        && |a.apdu| == |b.apdu|
        && (Parse(a.apdu).value.data == cfg.normal || Parse(a.apdu).value.data == cfg.duress)
        && (Parse(b.apdu).value.data == cfg.normal || Parse(b.apdu).value.data == cfg.duress))
  }

  /** Two responses an observer cannot tell apart: equal, or two SIGN CHALLENGE answers that differ
      in nothing but the bytes of the handle and of the signature. */
  predicate LooksAlike(a: Event, r: Bytes, q: Bytes) {
    r == q
    || (&& Carries(a, INS_SIGN_CHALLENGE) && IsOk(r) && IsOk(q)
        && |r| == |q| == 1 + 32 + 2 + RAW_SIGNATURE_LEN + 2
        && r[0] == q[0] && r[33..35] == q[33..35])
  }

  /** Equal but for which slot is unlocked. */
  predicate SameButSlot(s: CardState, t: CardState) {
    t == s.(unlocked := t.unlocked) && (s.unlocked.Some? <==> t.unlocked.Some?)
  }

  lemma SignedAlike(H: Hash, cfg: Config, s: CardState, t: CardState, data: Bytes)
    requires Enrolled(cfg) && SameButSlot(s, t)
    ensures var r, q := SignChallenge(H, cfg, s, data).response, SignChallenge(H, cfg, t, data).response;
            r == q || (IsOk(r) && IsOk(q) && |r| == |q| == 101 && r[0] == q[0] && r[33..35] == q[33..35])
  {
    hide PairwiseHandle, IsUtf8, SwBytes, BigEndian, SignFor, Enrolled, ResponseBody, IsOk;
    if s.unlocked.Some? && s.cardObject.Some? && data != [] {
      var n: nat := data[0];
      if |data| >= 1 + n && IsUtf8(data[1..1 + n]) {
        SignForShape(H, cfg, s, s.unlocked.value, data[1..1 + n], data[1 + n..]);
        SignForShape(H, cfg, t, t.unlocked.value, data[1..1 + n], data[1 + n..]);
      }
    }
  }

  /** Whether and how SIGN CHALLENGE answers depends on the challenge and the scope alone. */
  lemma SignForShape(H: Hash, cfg: Config, s: CardState, slot: Slot, scope: Text, challenge: Bytes)
    requires Enrolled(cfg)
    ensures var e, accepted := SignFor(H, cfg, s, slot, scope, challenge), ResponseBody(challenge, scope, []).Ok?;
            && (!accepted ==> e.response == SwBytes(SW_WRONG_DATA))
            && (accepted && cfg.signer == None ==> e.response == SwBytes(SW_CONDITIONS_NOT_SATISFIED))
            && (accepted && cfg.signer.Some? ==>
                  && IsOk(e.response) && |e.response| == 101
                  && e.response[0] == 32 && e.response[33..35] == BigEndian(RAW_SIGNATURE_LEN, 2))
  {
    hide PairwiseHandle, BigEndian;
    var secret := SlotSecret(cfg, slot).value;
    var handle := PairwiseHandle(H, secret, scope);
    if ResponseBody(challenge, scope, []).Ok? && cfg.signer.Some? {
      var body := ResponseBody(challenge, scope, handle).value;
      var signature := SlotSign(cfg.signer.value, slot, body);
      var p := SignedPayload(handle, signature);
      OkAnswer(p);
      assert p[33..35] == BigEndian(RAW_SIGNATURE_LEN, 2);
      assert (p + SwBytes(SW_OK))[33..35] == p[33..35];
    }
  }

  lemma StepLooksAlike(H: Hash, cfg: Config, s: CardState, t: CardState, a: Event, b: Event)
    requires Enrolled(cfg) && SameButSlot(s, t) && SamePinClass(cfg, a, b)
    ensures SameButSlot(After(H, cfg, s, a).state, After(H, cfg, t, b).state)
    ensures LooksAlike(a, After(H, cfg, s, a).response, After(H, cfg, t, b).response)
  {
    hide Parse, SignChallenge, Decoding, SwBytes, IsOk, IsUtf8, IsAscii, KeysPayload, Generated, Unblock;
    if Carries(a, INS_VERIFY_PIN) {
      PinsAlike(cfg, s, t, Parse(a.apdu).value.data, Parse(b.apdu).value.data);
      hide VerifyPin;
    } else if Carries(a, INS_SIGN_CHALLENGE) {
      SignedAlike(H, cfg, s, t, Parse(a.apdu).value.data);
      SigningKeepsState(H, cfg, s, Parse(a.apdu).value.data);
      SigningKeepsState(H, cfg, t, Parse(a.apdu).value.data);
    } else if Carries(a, INS_UNBLOCK) {
      UnblockAlike(cfg, s, t, Parse(a.apdu).value.data);
    }
  }

  lemma PinsAlike(cfg: Config, s: CardState, t: CardState, x: Bytes, y: Bytes)
    requires Enrolled(cfg) && SameButSlot(s, t)
    requires x == y || ((x == cfg.normal || x == cfg.duress) && (y == cfg.normal || y == cfg.duress))
    ensures SameButSlot(VerifyPin(cfg, s, x).state, VerifyPin(cfg, t, y).state)
    ensures VerifyPin(cfg, s, x).response == VerifyPin(cfg, t, y).response
  {
    hide SwBytes, IsUtf8, IsAscii;
  }

  lemma UnblockAlike(cfg: Config, s: CardState, t: CardState, x: Bytes)
    requires SameButSlot(s, t)
    ensures SameButSlot(Unblock(cfg, s, x).state, Unblock(cfg, t, x).state)
    ensures Unblock(cfg, s, x).response == Unblock(cfg, t, x).response
  {
    hide SwBytes, Compare, Supplied;
  }

  /** The property the card exists to hold.  Exchange the normal and the duress PIN in any VERIFY
      commands of any run: every response looks the same. */
  lemma {:induction false} DuressLooksNormal(H: Hash, cfg: Config, s: CardState, t: CardState, a: seq<Event>, b: seq<Event>)
    requires Enrolled(cfg) && SameButSlot(s, t)
    requires |a| == |b| && forall i :: 0 <= i < |a| ==> SamePinClass(cfg, a[i], b[i])
    ensures forall i :: 0 <= i < |a| ==> LooksAlike(a[i], Responses(H, cfg, s, a)[i], Responses(H, cfg, t, b)[i])
    ensures SameButSlot(Run(H, cfg, s, a), Run(H, cfg, t, b))
    decreases |a|
  {
    hide Enrolled, SameButSlot, SamePinClass, LooksAlike, After;
    if a != [] {
      StepLooksAlike(H, cfg, s, t, a[0], b[0]);
      var s', t' := After(H, cfg, s, a[0]).state, After(H, cfg, t, b[0]).state;
      DuressLooksNormal(H, cfg, s', t', a[1..], b[1..]);
      forall i | 0 <= i < |a| ensures LooksAlike(a[i], Responses(H, cfg, s, a)[i], Responses(H, cfg, t, b)[i]) {
        if i > 0 { assert a[i] == a[1..][i - 1]; }
      }
    }
  }

  /** Writing one PIN where the other stood keeps an APDU in its class, whatever its parameters and
      whatever follows the data. */
  lemma PinSwapInPlace(cfg: Config, p1: byte, p2: byte, tail: Bytes)
    requires Enrolled(cfg) && |cfg.normal| <= 0xFF
    ensures SamePinClass(cfg, Transmit([CLA, INS_VERIFY_PIN, p1, p2, |cfg.normal|] + cfg.normal + tail),
                         Transmit([CLA, INS_VERIFY_PIN, p1, p2, |cfg.duress|] + cfg.duress + tail))
  {
    ShortCommandParses(INS_VERIFY_PIN, p1, p2, cfg.normal, tail);
    ShortCommandParses(INS_VERIFY_PIN, p1, p2, cfg.duress, tail);
  }

  // ------------------------------------------------------------------
  // Whether a duress PIN is enrolled is unobservable
  // ------------------------------------------------------------------

  /** No VERIFY command of the run carries either comparand. */
  predicate Avoids(events: seq<Event>, d: Text, u: Text) {
    forall i :: 0 <= i < |events| && Carries(events[i], INS_VERIFY_PIN) ==>
                  Parse(events[i].apdu).value.data != d && Parse(events[i].apdu).value.data != u
  }

  /** The card whose holder enrolled nothing, otherwise alike. */
  function Unenrolled(cfg: Config, secretDuress: Option<Bytes>, random: Bytes): Config
    requires |random| >= Characters(cfg.normal) && IsAscii(random)
  {
    cfg.(duress := Comparand(cfg.normal, None, random), secretDuress := secretDuress)
  }

  lemma StepIgnoresComparand(H: Hash, cfg: Config, cfg': Config, s: CardState, e: Event)
    requires cfg' == cfg.(duress := cfg'.duress, secretDuress := cfg'.secretDuress)
    requires IsAscii(cfg.duress) && IsAscii(cfg'.duress) && s.unlocked != Some(Duress)
    requires Carries(e, INS_VERIFY_PIN) ==>
               var x := Supplied(Parse(e.apdu).value.data); x != cfg.duress && x != cfg'.duress
    ensures After(H, cfg, s, e) == After(H, cfg', s, e)
    ensures After(H, cfg, s, e).state.unlocked != Some(Duress)
  {
    hide Parse, Decoding, PairwiseHandle, ResponseBody, Supplied, IsAscii, SwBytes, KeysPayload, Generated, SlotSign;
  }

  lemma {:induction false} RunIgnoresComparand(H: Hash, cfg: Config, cfg': Config, s: CardState, events: seq<Event>)
    requires cfg' == cfg.(duress := cfg'.duress, secretDuress := cfg'.secretDuress)
    requires IsAscii(cfg.duress) && IsAscii(cfg'.duress) && s.unlocked != Some(Duress)
    requires cfg.duress != [0] && cfg'.duress != [0] && Avoids(events, cfg.duress, cfg'.duress)
    ensures Responses(H, cfg, s, events) == Responses(H, cfg', s, events)
    decreases |events|
  {
    hide After, Parse, IsAscii;
    if events != [] {
      StepIgnoresComparand(H, cfg, cfg', s, events[0]);
      forall i | 0 <= i < |events[1..]| && Carries(events[1..][i], INS_VERIFY_PIN)
        ensures Parse(events[1..][i].apdu).value.data != cfg.duress
        ensures Parse(events[1..][i].apdu).value.data != cfg'.duress
      {
        assert events[1..][i] == events[i + 1];
      }
      RunIgnoresComparand(H, cfg, cfg', After(H, cfg, s, events[0]).state, events[1..]);
    }
  }

  predicate NoNul(b: Bytes) {
    forall i :: 0 <= i < |b| ==> b[i] != 0
  }

  const UNDECODABLE_APDU: Bytes := [CLA, INS_VERIFY_PIN, 0x00, 0x80, 0x01, 0xFF]

  /** Enrolment is unobservable on every run that guesses neither comparand exactly when the PIN has
      at least two characters.  With one, the comparand of a card without a duress PIN is a bare
      NUL, which is also what data that is no text is taken to say: such data opens that card and
      not the other. */
  lemma EnrolmentUnobservableIff(H: Hash, cfg: Config, secretDuress: Option<Bytes>, random: Bytes, cardObject: Option<Bytes>)
    requires PinsEnrolled(cfg) && (|cfg.normal| == 1 ==> NoNul(cfg.normal) && NoNul(cfg.duress))
    requires |random| >= Characters(cfg.normal) && IsAscii(random)
    ensures var cfg' := Unenrolled(cfg, secretDuress, random);
            (forall events :: Avoids(events, cfg.duress, cfg'.duress) ==>
                                Responses(H, cfg, Made(cardObject), events) == Responses(H, cfg', Made(cardObject), events))
            <==> |cfg.normal| >= 2
  {
    hide Responses, PinsEnrolled;
    var cfg' := Unenrolled(cfg, secretDuress, random);
    EnrolledPins(cfg);
    AsciiCharacters(cfg.normal);
    if |cfg.normal| >= 2 {
      forall events | Avoids(events, cfg.duress, cfg'.duress)
        ensures Responses(H, cfg, Made(cardObject), events) == Responses(H, cfg', Made(cardObject), events)
      {
        RunIgnoresComparand(H, cfg, cfg', Made(cardObject), events);
      }
    } else {
      hide Avoids, Unenrolled;
      assert Avoids(TELLING_RUN, cfg.duress, cfg'.duress) by { TellingRunAvoids(cfg.duress, [0]); }
      Undecodable(H, cfg, cardObject);
      Undecodable(H, cfg', cardObject);
    }
  }

  lemma EnrolledPins(cfg: Config)
    requires PinsEnrolled(cfg)
    ensures IsAscii(cfg.normal) && IsAscii(cfg.duress) && |cfg.normal| == |cfg.duress| >= 1
  {
  }

  /** The run that tells: SELECT, then one undecodable PIN. */
  const TELLING_RUN: seq<Event> := [Transmit(SELECT_COMMAND), Transmit(UNDECODABLE_APDU)]

  lemma TellingApdus()
    ensures Parse(SELECT_COMMAND) == Ok(Command(INS_SELECT, []))
    ensures Parse(UNDECODABLE_APDU) == Ok(Command(INS_VERIFY_PIN, [0xFF]))
  {
    assert SELECT_COMMAND[5..5] == [] && UNDECODABLE_APDU[5..6] == [0xFF];
  }

  lemma TellingRunAvoids(d: Text, u: Text)
    requires IsAscii(d) && IsAscii(u)
    ensures Avoids(TELLING_RUN, d, u)
  {
    hide Parse;
    TellingApdus();
    assert [0xFF][0] == 0xFF;
  }

  lemma Undecodable(H: Hash, cfg: Config, cardObject: Option<Bytes>)
    requires IsAscii(cfg.normal) && IsAscii(cfg.duress)
    ensures IsOk(Responses(H, cfg, Made(cardObject), TELLING_RUN)[1]) <==> cfg.normal == [0] || cfg.duress == [0]
  {
    hide Parse, IsOk, SwBytes, Responses;
    TellingApdus();
    assert Supplied([0xFF]) == [0];
    ResponseAt(H, cfg, Made(cardObject), TELLING_RUN, 1);
    var t := Made(cardObject).(selected := true);
    assert TELLING_RUN[..1] == [TELLING_RUN[0]] && TELLING_RUN[..1][1..] == [];
    assert Run(H, cfg, Made(cardObject), TELLING_RUN[..1]) == t;
    assert After(H, cfg, t, TELLING_RUN[1]) == VerifyPin(cfg, t, [0xFF]);
    OkStatus(SW_WRONG_PIN + 2);
    OkStatus(SW_OK);
  }
}
