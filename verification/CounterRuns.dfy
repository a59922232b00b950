/** A holder at a counter: any sequence of readings and decisions of one device, and of anything else
    that happens to the card.  Run it with the duress PIN in the place of the normal one and nothing at
    the counter changes but handles and signatures. */
module CounterRuns {
  import opened ByteStrings
  import opened Utf8
  import opened CardProfile
  import opened CardIssuance
  import opened Presentation
  import opened CardMachine
  import opened CardRuns
  import opened CardReader
  import opened VerifierDevice
  import opened DeviceTheorems
  import opened EndToEnd

  // ------------------------------------------------------------------
  // Runs at a counter
  // ------------------------------------------------------------------

  /** The device reads the card under the PIN that is entered, decides a presentation it has read or one
      from elsewhere; or something else happens to the card. */
  datatype Errand =
    | Reads(pin: Text, wantObject: bool, random: Digest)
    | Judges(i: nat, q: Request)
    | JudgesOther(p: Presented, q: Request)
    | Meets(event: Event)

  datatype Answer =
    | HasRead(reading: Result<Presented, DeviceRefusal>)
    | HasJudged(verdict: Result<DeviceVerdict, CardError>)
    | HasMet(response: Bytes)
    | NothingToJudge

  /** The device, the card, and the presentations read so far. */
  datatype Counter = Counter(dev: DeviceState, card: CardState, readings: seq<Result<Presented, DeviceRefusal>>)

  datatype Outcome = Outcome(counter: Counter, answer: Answer)

  function Does(H: Hash, d: Device, cfg: Config, w: Counter, e: Errand): Outcome {
    match e
    case Reads(pin, wantObject, random) =>
      var r := ReadCard(H, d, cfg, w.card, pin, wantObject, random);
      Outcome(Counter(w.dev.(open := w.dev.open + {random}), r.card, w.readings + [r.presented]), HasRead(r.presented))
    case Judges(i, q) =>
      if i < |w.readings| && w.readings[i].Ok? then JudgedBy(H, d, w, w.readings[i].value, q) else Outcome(w, NothingToJudge)
    case JudgesOther(p, q) => JudgedBy(H, d, w, p, q)
    case Meets(event) =>
      var a := After(H, cfg, w.card, event);
      Outcome(w.(card := a.state), HasMet(a.response))
  }

  function JudgedBy(H: Hash, d: Device, w: Counter, p: Presented, q: Request): Outcome {
    var decided := Decide(H, d, w.dev, p, q);
    Outcome(w.(dev := decided.state), HasJudged(decided.verdict))
  }

  function Answers(H: Hash, d: Device, cfg: Config, w: Counter, errands: seq<Errand>): (r: seq<Answer>)
    ensures |r| == |errands|
    decreases |errands|
  {
    if errands == [] then []
    else
      var o := Does(H, d, cfg, w, errands[0]);
      [o.answer] + Answers(H, d, cfg, o.counter, errands[1..])
  }

  function Ends(H: Hash, d: Device, cfg: Config, w: Counter, errands: seq<Errand>): Counter
    decreases |errands|
  {
    if errands == [] then w else Ends(H, d, cfg, Does(H, d, cfg, w, errands[0]).counter, errands[1..])
  }

  // ------------------------------------------------------------------
  // What an onlooker cannot tell apart
  // ------------------------------------------------------------------

  predicate RightPin(cfg: Config, pin: Text) {
    pin == cfg.normal || pin == cfg.duress
  }

  /** The same errand, but for which of the two PINs is used. */
  ghost predicate SameErrand(cfg: Config, a: Errand, b: Errand) {
    || a == b
    || (a.Reads? && b.Reads? && RightPin(cfg, a.pin) && RightPin(cfg, b.pin) && b == a.(pin := b.pin))
    || (a.Meets? && b.Meets? && SamePinClass(cfg, a.event, b.event))
  }

  /** Equal but for the bytes of handle and signature. */
  predicate PresentedAlike(p: Presented, q: Presented) {
    q == p.(handle := q.handle, signature := q.signature) && |p.handle| == |q.handle| && |p.signature| == |q.signature|
  }

  /** Equal but for the handle a verdict reports. */
  predicate VerdictsAlike(v: Result<DeviceVerdict, CardError>, w: Result<DeviceVerdict, CardError>) {
    v == w || (v.Ok? && w.Ok? && w.value == v.value.(handle := w.value.handle))
  }

  /** Two answers to an errand that look the same. */
  predicate AnswersAlike(e: Errand, a: Answer, b: Answer) {
    match e
    case Reads(_, _, _) =>
      && a.HasRead? && b.HasRead?
      && (a == b || (a.reading.Ok? && b.reading.Ok? && PresentedAlike(a.reading.value, b.reading.value)))
    case Judges(_, _) => a == b || (a.HasJudged? && b.HasJudged? && VerdictsAlike(a.verdict, b.verdict))
    case JudgesOther(_, _) => a == b
    case Meets(event) => a.HasMet? && b.HasMet? && LooksAlike(event, a.response, b.response)
  }

  /** A response verifier that takes what one slot signs exactly when it takes what the other one signs: a
      verifier at the counter is not to tell them apart. */
  ghost predicate Impartial(H: Hash, d: Device, cfg: Config, q: Request) {
    q.responseVerifier.Some? && cfg.signer.Some? && cfg.secretDuress.Some? && |d.scope| <= MAX_SCOPE ==>
      forall challenge: Digest ::
        SlotVerifies(H, d, cfg, q.responseVerifier.value, Normal, challenge)
        <==> SlotVerifies(H, d, cfg, q.responseVerifier.value, Duress, challenge)
  }

  predicate SlotVerifies(H: Hash, d: Device, cfg: Config, v: Verifier, slot: Slot, challenge: Digest)
    requires SlotSecret(cfg, slot).Some? && cfg.signer.Some? && |d.scope| <= MAX_SCOPE
  {
    Verifies(v, SlotBody(H, cfg, slot, d.scope, challenge), SlotSignature(H, cfg, slot, d.scope, challenge))
  }

  // ------------------------------------------------------------------
  // The relation that every errand keeps
  // ------------------------------------------------------------------

  /** What a slot presents, for some challenge and object. */
  ghost predicate SlotPresents(H: Hash, d: Device, cfg: Config, slot: Slot, c: Digest, cardObject: Option<Bytes>, p: Presented) {
    SlotSecret(cfg, slot).Some? && cfg.signer.Some? && |d.scope| <= MAX_SCOPE
    && p == SlotPresentation(H, d, cfg, slot, c, cardObject)
  }

  /** The same reading, or two slots' presentations for one challenge. */
  ghost predicate SameReading(H: Hash, d: Device, cfg: Config, r: Result<Presented, DeviceRefusal>, r': Result<Presented, DeviceRefusal>) {
    || r == r'
    || (r.Ok? && r'.Ok? && exists slot, slot', c: Digest, cardObject ::
          SlotPresents(H, d, cfg, slot, c, cardObject, r.value) && SlotPresents(H, d, cfg, slot', c, cardObject, r'.value))
  }

  ghost predicate SameCounter(H: Hash, d: Device, cfg: Config, w: Counter, w': Counter) {
    && w.dev == w'.dev && SameButSlot(w.card, w'.card) && |w.readings| == |w'.readings|
    && forall i :: 0 <= i < |w.readings| ==> SameReading(H, d, cfg, w.readings[i], w'.readings[i])
  }

  lemma OpenedAlike(H: Hash, d: Device, cfg: Config, s: CardState, slot: Slot, slot': Slot, wantObject: bool, c: Digest)
    requires Enrolled(cfg) && s.selected
    ensures var r := SignedReading(H, d, cfg, s.(unlocked := Some(slot)), wantObject, c);
            var r' := SignedReading(H, d, cfg, s.(unlocked := Some(slot')), wantObject, c);
            SameButSlot(r.card, r'.card) && SameReading(H, d, cfg, r.presented, r'.presented)
  {
    hide SignedReading, SlotSignature, SlotPresentation, SlotSecret;
    OpenedReading(H, d, cfg, s.(unlocked := Some(slot)), slot, wantObject, c);
    OpenedReading(H, d, cfg, s.(unlocked := Some(slot')), slot', wantObject, c);
    BothAnswer(H, cfg, slot, d.scope, c);
    BothAnswer(H, cfg, slot', d.scope, c);
    if s.cardObject.Some? && cfg.signer.Some? && |d.scope| <= MAX_SCOPE {
      var shown := if wantObject then s.cardObject else None;
      var r := SignedReading(H, d, cfg, s.(unlocked := Some(slot)), wantObject, c).presented;
      var r' := SignedReading(H, d, cfg, s.(unlocked := Some(slot')), wantObject, c).presented;
      assert SlotPresents(H, d, cfg, slot, c, shown, r.value) && SlotPresents(H, d, cfg, slot', c, shown, r'.value);
    }
  }

  lemma BothAnswer(H: Hash, cfg: Config, slot: Slot, scope: Text, c: Digest)
    requires Enrolled(cfg)
    ensures SlotSecret(cfg, slot).Some?
    ensures SlotAnswers(H, cfg, slot, scope, c) <==> cfg.signer.Some? && |scope| <= MAX_SCOPE
  {
    hide SlotBody;
  }

  lemma ReadingsAlike(H: Hash, d: Device, cfg: Config, s: CardState, t: CardState, pin: Text, pin': Text, wantObject: bool, c: Digest)
    requires Enrolled(cfg) && SameButSlot(s, t)
    requires pin == pin' || (RightPin(cfg, pin) && RightPin(cfg, pin'))
    ensures var r, r' := ReadCard(H, d, cfg, s, pin, wantObject, c), ReadCard(H, d, cfg, t, pin', wantObject, c);
            SameButSlot(r.card, r'.card) && SameReading(H, d, cfg, r.presented, r'.presented)
  {
    hide Step, IsOk, VerifyPinCommand, SignedReading, Enrolled, SameReading;
    SelectStep(H, cfg, s);
    SelectStep(H, cfg, t);
    var u := s.(selected := true, unlocked := None);
    assert u == t.(selected := true, unlocked := None);
    PinCommandFitsIff(pin);
    PinCommandFitsIff(pin');
    EnrolledLengths(cfg);
    EqualReadings(H, d, cfg);
    if pin != pin' && |pin| <= MAX_PIN {
      PinsAnsweredAlike(H, cfg, u, pin, pin');
      RightPinStep(H, cfg, u, pin);
      RightPinStep(H, cfg, u, pin');
      OpenedAlike(H, d, cfg, u.(tries := MAX_PIN_TRIES), SlotOf(cfg, pin), SlotOf(cfg, pin'), wantObject, c);
    }
  }

  lemma EqualReadings(H: Hash, d: Device, cfg: Config)
    ensures forall r :: SameReading(H, d, cfg, r, r)
  {
  }

  lemma EnrolledLengths(cfg: Config)
    requires Enrolled(cfg)
    ensures |cfg.normal| == |cfg.duress|
  {
  }

  lemma PinsAnsweredAlike(H: Hash, cfg: Config, u: CardState, pin: Text, pin': Text)
    requires Enrolled(cfg) && RightPin(cfg, pin) && RightPin(cfg, pin') && |pin| <= MAX_PIN && |pin'| <= MAX_PIN
    ensures var e, e' := Step(H, cfg, u, VerifyPinCommand(pin).value), Step(H, cfg, u, VerifyPinCommand(pin').value);
            e.response == e'.response && SameButSlot(e.state, e'.state)
  {
    hide Step, Parse, IsOk;
    ShortCommandParses(INS_VERIFY_PIN, 0x00, 0x80, pin, []);
    ShortCommandParses(INS_VERIFY_PIN, 0x00, 0x80, pin', []);
    StepLooksAlike(H, cfg, u, u, Transmit(VerifyPinCommand(pin).value), Transmit(VerifyPinCommand(pin').value));
  }

  lemma DecidedAlike(H: Hash, d: Device, cfg: Config, dev: DeviceState, p: Presented, p': Presented, q: Request)
    requires Enrolled(cfg) && Impartial(H, d, cfg, q) && SameReading(H, d, cfg, Ok(p), Ok(p'))
    ensures var v, v' := Decide(H, d, dev, p, q), Decide(H, d, dev, p', q);
            v.state == v'.state && VerdictsAlike(v.verdict, v'.verdict)
  {
    hide Decide, Enrolled, Impartial;
    if p != p' {
      var slot, slot', c: Digest, cardObject :|
        SlotPresents(H, d, cfg, slot, c, cardObject, p) && SlotPresents(H, d, cfg, slot', c, cardObject, p');
      SlotsVerifyAlike(H, d, cfg, q, slot, slot', c);
      BothAnswer(H, cfg, slot, d.scope, c);
      BothAnswer(H, cfg, slot', d.scope, c);
      SlotWidths(H, d, cfg, slot, c);
      SlotWidths(H, d, cfg, slot', c);
      BodiesDecide(H, d, dev, p, p', q);
    }
  }

  lemma SlotWidths(H: Hash, d: Device, cfg: Config, slot: Slot, c: Digest)
    requires Enrolled(cfg) && cfg.signer.Some? && |d.scope| <= MAX_SCOPE
    ensures SlotSecret(cfg, slot).Some?
    ensures |SlotSignature(H, cfg, slot, d.scope, c)| == RAW_SIGNATURE_LEN
    ensures ResponseBody(c, d.scope, SlotHandle(H, cfg, slot, d.scope)) == Ok(SlotBody(H, cfg, slot, d.scope, c))
  {
    hide PairwiseHandle;
  }

  lemma SlotsVerifyAlike(H: Hash, d: Device, cfg: Config, q: Request, slot: Slot, slot': Slot, c: Digest)
    requires Impartial(H, d, cfg, q) && cfg.secretDuress.Some? && cfg.signer.Some? && |d.scope| <= MAX_SCOPE
    ensures SlotSecret(cfg, slot).Some? && SlotSecret(cfg, slot').Some?
    ensures q.responseVerifier.Some? ==>
              (SlotVerifies(H, d, cfg, q.responseVerifier.value, slot, c) <==> SlotVerifies(H, d, cfg, q.responseVerifier.value, slot', c))
  {
    hide SlotVerifies;
  }

  /** A decision looks at handle and signature only to see that they are there and that they verify. */
  lemma BodiesDecide(H: Hash, d: Device, dev: DeviceState, p: Presented, p': Presented, q: Request)
    requires PresentedAlike(p, p') && p.handle != [] && p.signature != []
    requires ResponseBody(p.challenge, p.scope, p.handle).Ok? && ResponseBody(p'.challenge, p'.scope, p'.handle).Ok?
    requires q.responseVerifier.Some? ==>
               (Verifies(q.responseVerifier.value, ResponseBody(p.challenge, p.scope, p.handle).value, p.signature)
                <==> Verifies(q.responseVerifier.value, ResponseBody(p'.challenge, p'.scope, p'.handle).value, p'.signature))
    ensures var v, v' := Decide(H, d, dev, p, q), Decide(H, d, dev, p', q);
            v.state == v'.state && VerdictsAlike(v.verdict, v'.verdict)
  {
    hide ResponseBody, Authenticity, Verifies;
    var v := NOTHING.(possession := true, handle := Some(p.handle), linkability := Pairwise);
    StagesIgnoreHandle(H, d, p, p', q, v, Some(p'.handle));
  }

  lemma StagesIgnoreHandle(H: Hash, d: Device, p: Presented, p': Presented, q: Request, v: DeviceVerdict, h: Option<Bytes>)
    requires p.cardObject == p'.cardObject
    ensures Authenticity(H, d, p', q, v.(handle := h)) == Authenticity(H, d, p, q, v).(handle := h)
  {
    hide Authentic, Authorization;
    AuthorizationIgnoresHandle(d, p, p', q, v, h);
    AuthorizationIgnoresHandle(d, p, p', q, v.(cardAuthentic := Some(true)), h);
  }

  lemma AuthorizationIgnoresHandle(d: Device, p: Presented, p': Presented, q: Request, v: DeviceVerdict, h: Option<Bytes>)
    requires p.cardObject == p'.cardObject
    ensures Authorization(d, p', q, v.(handle := h)) == Authorization(d, p, q, v).(handle := h)
  {
    hide CheckStatus, Standing;
    if q.assertion.Some? {
      if q.statusVerifier.Some? {
        var a := q.assertion.value;
        var sv := CheckStatus(q.statusVerifier.value, a, q.now, d.window);
        var link := if a.tokenValue != [] then CredentialLinkable else v.linkability;
        StandingIgnoresHandle(p, p', v.(mode := Some(Offline), linkability := link, status := sv.status, isFresh := sv.isFresh), h);
      }
    } else if q.online.Some? {
      var o := q.online.value;
      var link := if o.tokenValue != [] || o.credentialRef != [] then CredentialLinkable else v.linkability;
      StandingIgnoresHandle(p, p', v.(mode := Some(Online), linkability := link, status := o.status, isFresh := Some(true)), h);
    }
  }

  lemma StandingIgnoresHandle(p: Presented, p': Presented, v: DeviceVerdict, h: Option<Bytes>)
    requires p.cardObject == p'.cardObject
    ensures Standing(p', v.(handle := h)) == Standing(p, v).(handle := h)
  {
  }

  lemma PresentsAlike(H: Hash, d: Device, cfg: Config, r: Result<Presented, DeviceRefusal>, r': Result<Presented, DeviceRefusal>)
    requires Enrolled(cfg) && SameReading(H, d, cfg, r, r')
    ensures r == r' || (r.Ok? && r'.Ok? && PresentedAlike(r.value, r'.value))
  {
    hide Enrolled;
    if r != r' {
      var slot, slot', c: Digest, cardObject :|
        SlotPresents(H, d, cfg, slot, c, cardObject, r.value) && SlotPresents(H, d, cfg, slot', c, cardObject, r'.value);
      SlotWidths(H, d, cfg, slot, c);
      SlotWidths(H, d, cfg, slot', c);
    }
  }

  lemma ErrandKeepsAlike(H: Hash, d: Device, cfg: Config, w: Counter, w': Counter, a: Errand, b: Errand)
    requires Enrolled(cfg) && SameCounter(H, d, cfg, w, w') && SameErrand(cfg, a, b)
    requires a.Judges? ==> Impartial(H, d, cfg, a.q)
    ensures SameCounter(H, d, cfg, Does(H, d, cfg, w, a).counter, Does(H, d, cfg, w', b).counter)
    ensures AnswersAlike(a, Does(H, d, cfg, w, a).answer, Does(H, d, cfg, w', b).answer)
  {
    hide ReadCard, Decide, After, Enrolled, Impartial, SameReading, SameButSlot, VerdictsAlike, PresentedAlike, SamePinClass, LooksAlike;
    match a
    case Reads(pin, wantObject, random) =>
      ReadingsAlike(H, d, cfg, w.card, w'.card, pin, b.pin, wantObject, random);
      PresentsAlike(H, d, cfg, ReadCard(H, d, cfg, w.card, pin, wantObject, random).presented,
                    ReadCard(H, d, cfg, w'.card, b.pin, wantObject, random).presented);
    case Judges(i, q) =>
      if i < |w.readings| {
        SameOutcome(H, d, cfg, w.readings[i], w'.readings[i]);
        if w.readings[i].Ok? { DecidedAlike(H, d, cfg, w.dev, w.readings[i].value, w'.readings[i].value, q); }
      }
    case JudgesOther(p, q) =>
    case Meets(event) =>
      assert SamePinClass(cfg, event, b.event) by { SameClass(cfg, event); }
      StepLooksAlike(H, cfg, w.card, w'.card, event, b.event);
  }

  lemma SameClass(cfg: Config, e: Event)
    ensures SamePinClass(cfg, e, e)
  {
  }

  lemma SameOutcome(H: Hash, d: Device, cfg: Config, r: Result<Presented, DeviceRefusal>, r': Result<Presented, DeviceRefusal>)
    requires SameReading(H, d, cfg, r, r')
    ensures r.Ok? <==> r'.Ok?
  {
  }

  lemma {:induction false} RunKeepsAlike(H: Hash, d: Device, cfg: Config, w: Counter, w': Counter, a: seq<Errand>, b: seq<Errand>)
    requires Enrolled(cfg) && SameCounter(H, d, cfg, w, w')
    requires |a| == |b| && forall i :: 0 <= i < |a| ==> SameErrand(cfg, a[i], b[i])
    requires forall i :: 0 <= i < |a| && a[i].Judges? ==> Impartial(H, d, cfg, a[i].q)
    ensures forall i :: 0 <= i < |a| ==> AnswersAlike(a[i], Answers(H, d, cfg, w, a)[i], Answers(H, d, cfg, w', b)[i])
    ensures SameCounter(H, d, cfg, Ends(H, d, cfg, w, a), Ends(H, d, cfg, w', b))
    decreases |a|
  {
    hide Enrolled, SameCounter, SameErrand, Impartial, AnswersAlike, Does;
    if a != [] {
      ErrandKeepsAlike(H, d, cfg, w, w', a[0], b[0]);
      var v, v' := Does(H, d, cfg, w, a[0]).counter, Does(H, d, cfg, w', b[0]).counter;
      assert forall i :: 0 <= i < |a| - 1 ==> a[1..][i] == a[i + 1] && b[1..][i] == b[i + 1];
      RunKeepsAlike(H, d, cfg, v, v', a[1..], b[1..]);
      forall i | 0 <= i < |a| ensures AnswersAlike(a[i], Answers(H, d, cfg, w, a)[i], Answers(H, d, cfg, w', b)[i]) {
        if i > 0 { assert a[i] == a[1..][i - 1]; }
      }
    }
  }

  /** To the counter the two PINs are one.  Take any run of a device and a card, with any number of
      readings and decisions in any order, and exchange the two PINs in any of its readings and VERIFY
      commands.  With response verifiers that do not tell the slots apart, the device ends in the same
      state, every refusal is the same refusal, every presentation is equal but for the bytes of handle
      and signature, and every verdict is equal but for the handle. */
  lemma DuressVerdictsLookNormal(H: Hash, d: Device, cfg: Config, w: Counter, a: seq<Errand>, b: seq<Errand>)
    requires Enrolled(cfg) && |a| == |b| && forall i :: 0 <= i < |a| ==> SameErrand(cfg, a[i], b[i])
    requires forall i :: 0 <= i < |a| && a[i].Judges? ==> Impartial(H, d, cfg, a[i].q)
    ensures forall i :: 0 <= i < |a| ==> AnswersAlike(a[i], Answers(H, d, cfg, w, a)[i], Answers(H, d, cfg, w, b)[i])
    ensures Ends(H, d, cfg, w, a).dev == Ends(H, d, cfg, w, b).dev
  {
    hide Enrolled, SameErrand, Impartial, AnswersAlike, Does, Answers, Ends, SameReading;
    EqualReadings(H, d, cfg);
    RunKeepsAlike(H, d, cfg, w, w, a, b);
  }

  // ------------------------------------------------------------------
  // Exactly when
  // ------------------------------------------------------------------

  /** Whatever happens at the counter and however often, exchanging the two PINs changes nothing an
      onlooker could see, when what the device has read is judged with this request. */
  ghost predicate RunsLookAlike(H: Hash, d: Device, cfg: Config, w: Counter, q: Request) {
    forall a: seq<Errand>, b: seq<Errand> ::
      && |a| == |b| && (forall i :: 0 <= i < |a| ==> SameErrand(cfg, a[i], b[i]))
      && (forall i :: 0 <= i < |a| && a[i].Judges? ==> a[i].q == q)
      ==> forall i :: 0 <= i < |a| ==> AnswersAlike(a[i], Answers(H, d, cfg, w, a)[i], Answers(H, d, cfg, w, b)[i])
  }

  /** The card as any other observer sees it does not tell the PINs apart; the device's verdicts do not
      either exactly when its response verifier does not tell the slots apart.  The run that tells is one
      reading and one decision. */
  lemma RunsLookAlikeIff(H: Hash, d: Device, cfg: Config, w: Counter, q: Request)
    requires Enrolled(cfg) && |cfg.normal| <= MAX_PIN && d.scope != []
    requires w.card.cardObject.Some? && w.card.tries > 0 && w.dev.spent == {} && w.readings == []
    ensures RunsLookAlike(H, d, cfg, w, q) <==> Impartial(H, d, cfg, q)
  {
    hide Enrolled, SameErrand, AnswersAlike, Answers, SlotVerifies;
    if Impartial(H, d, cfg, q) {
      forall a: seq<Errand>, b: seq<Errand> |
        && |a| == |b| && (forall i :: 0 <= i < |a| ==> SameErrand(cfg, a[i], b[i]))
        && (forall i :: 0 <= i < |a| && a[i].Judges? ==> a[i].q == q)
        ensures forall i :: 0 <= i < |a| ==> AnswersAlike(a[i], Answers(H, d, cfg, w, a)[i], Answers(H, d, cfg, w, b)[i])
      {
        DuressVerdictsLookNormal(H, d, cfg, w, a, b);
      }
    } else {
      var c: Digest :| SlotVerifies(H, d, cfg, q.responseVerifier.value, Normal, c)
                       != SlotVerifies(H, d, cfg, q.responseVerifier.value, Duress, c);
      var a, b := [Reads(cfg.normal, true, c), Judges(0, q)], [Reads(cfg.duress, true, c), Judges(0, q)];
      TellingRun(H, d, cfg, w, q, c);
      assert forall i :: 0 <= i < |a| ==> SameErrand(cfg, a[i], b[i]);
      assert !AnswersAlike(a[1], Answers(H, d, cfg, w, a)[1], Answers(H, d, cfg, w, b)[1]);
    }
  }

  lemma TellingRun(H: Hash, d: Device, cfg: Config, w: Counter, q: Request, c: Digest)
    requires Enrolled(cfg) && |cfg.normal| <= MAX_PIN && 0 < |d.scope| <= MAX_SCOPE && cfg.signer.Some? && q.responseVerifier.Some?
    requires w.card.cardObject.Some? && w.card.tries > 0 && c !in w.dev.spent && w.readings == []
    ensures cfg.secretDuress.Some?
    ensures var a, b := [Reads(cfg.normal, true, c), Judges(0, q)], [Reads(cfg.duress, true, c), Judges(0, q)];
            && SameErrand(cfg, a[0], b[0]) && SameErrand(cfg, a[1], b[1])
            && (AnswersAlike(a[1], Answers(H, d, cfg, w, a)[1], Answers(H, d, cfg, w, b)[1]) ==>
                  (SlotVerifies(H, d, cfg, q.responseVerifier.value, Normal, c)
                   <==> SlotVerifies(H, d, cfg, q.responseVerifier.value, Duress, c)))
  {
    hide Enrolled, Answers, SlotVerifies;
    EnrolledLengths(cfg);
    BothAnswer(H, cfg, Duress, d.scope, c);
    OpensSlot(cfg);
    ReadAndJudged(H, d, cfg, w, cfg.normal, c, q);
    ReadAndJudged(H, d, cfg, w, cfg.duress, c, q);
  }

  lemma OpensSlot(cfg: Config)
    requires Enrolled(cfg)
    ensures SlotOf(cfg, cfg.normal) == Normal && SlotOf(cfg, cfg.duress) == Duress && Comparable(cfg)
  {
  }

  /** What a device says of a card it has just read under a right PIN: possession is proven exactly when
      its verifier takes what the opened slot signs. */
  lemma ReadAndJudged(H: Hash, d: Device, cfg: Config, w: Counter, pin: Text, c: Digest, q: Request)
    requires Enrolled(cfg) && RightPin(cfg, pin) && |pin| <= MAX_PIN && 0 < |d.scope| <= MAX_SCOPE
    requires cfg.signer.Some? && q.responseVerifier.Some?
    requires w.card.cardObject.Some? && w.card.tries > 0 && c !in w.dev.spent && w.readings == []
    ensures SlotSecret(cfg, SlotOf(cfg, pin)).Some?
    ensures var v := Answers(H, d, cfg, w, [Reads(pin, true, c), Judges(0, q)])[1];
            && v.HasJudged? && v.verdict.Ok?
            && (v.verdict.value.possession <==> SlotVerifies(H, d, cfg, q.responseVerifier.value, SlotOf(cfg, pin), c))
            && (!v.verdict.value.possession ==> v.verdict.value.note == Some(ResponseFailed))
  {
    hide ReadCard, Decide, Enrolled, Verifies, SlotSecret, SlotBody, SlotSignature;
    var slot := SlotOf(cfg, pin);
    OpensSlot(cfg);
    BothAnswer(H, cfg, slot, d.scope, c);
    HonestRead(H, d, cfg, w.card, pin, true, c);
    SlotWidths(H, d, cfg, slot, c);
    var p := SlotPresentation(H, d, cfg, slot, c, w.card.cardObject);
    JudgesFirst(H, d, cfg, w, pin, c, q, p);
    PossessionDecided(H, d, w.dev.(open := w.dev.open + {c}), p, q);
  }

  lemma JudgesFirst(H: Hash, d: Device, cfg: Config, w: Counter, pin: Text, c: Digest, q: Request, p: Presented)
    requires w.readings == [] && ReadCard(H, d, cfg, w.card, pin, true, c).presented == Ok(p)
    ensures Answers(H, d, cfg, w, [Reads(pin, true, c), Judges(0, q)])[1]
            == HasJudged(Decide(H, d, w.dev.(open := w.dev.open + {c}), p, q).verdict)
  {
    hide ReadCard, Decide;
    var a := [Reads(pin, true, c), Judges(0, q)];
    assert a[1..] == [Judges(0, q)] && a[1..][1..] == [];
    assert ([] + [ReadCard(H, d, cfg, w.card, pin, true, c).presented])[0] == Ok(p);
  }

  lemma PossessionDecided(H: Hash, d: Device, dev: DeviceState, p: Presented, q: Request)
    requires p.challenge != [] && p.handle != [] && p.signature != [] && p.scope == d.scope != []
    requires p.challenge in dev.open && p.challenge !in dev.spent && q.responseVerifier.Some?
    requires ResponseBody(p.challenge, p.scope, p.handle).Ok?
    ensures var v := Decide(H, d, dev, p, q).verdict;
            && v.Ok?
            && (v.value.possession <==> Verifies(q.responseVerifier.value, ResponseBody(p.challenge, p.scope, p.handle).value, p.signature))
            && (!v.value.possession ==> v.value.note == Some(ResponseFailed))
  {
    hide ResponseBody, Authentic, CheckStatus, Verifies;
  }

  // ------------------------------------------------------------------
  // Readers that check under keys
  // ------------------------------------------------------------------

  /** A signature scheme as a reader knows it: whether a signature over a body checks under a key. */
  datatype Scheme = Scheme(f: (Bytes, Bytes, Bytes) -> bool)

  predicate Checks(s: Scheme, key: Bytes, body: Bytes, signature: Bytes) {
    s.f(key, body, signature)
  }

  function UnderKey(s: Scheme, key: Bytes): (v: Verifier)
    ensures forall body, signature :: Verifies(v, body, signature) <==> Checks(s, key, body, signature)
  {
    Verifier((body: Bytes, signature: Bytes) => Checks(s, key, body, signature))
  }

  function UnderEither(s: Scheme, key: Bytes, other: Bytes): (v: Verifier)
    ensures forall body, signature :: Verifies(v, body, signature) <==> Checks(s, key, body, signature) || Checks(s, other, body, signature)
  {
    Verifier((body: Bytes, signature: Bytes) => Checks(s, key, body, signature) || Checks(s, other, body, signature))
  }

  /** A card's signatures check under the key of the slot that made them and not under the other. */
  ghost predicate KeysTellSlots(s: Scheme, cfg: Config, normalKey: Bytes, duressKey: Bytes) {
    && cfg.signer.Some?
    && forall slot, body ::
         && (Checks(s, normalKey, body, SlotSign(cfg.signer.value, slot, body)) <==> slot == Normal)
         && (Checks(s, duressKey, body, SlotSign(cfg.signer.value, slot, body)) <==> slot == Duress)
  }

  /** A reader that checks responses under one slot's key tells the slots apart; one that tries both keys
      does not. */
  lemma KeyReadersImpartial(H: Hash, d: Device, cfg: Config, q: Request, s: Scheme, normalKey: Bytes, duressKey: Bytes)
    requires KeysTellSlots(s, cfg, normalKey, duressKey) && cfg.secretDuress.Some? && |d.scope| <= MAX_SCOPE
    ensures !Impartial(H, d, cfg, q.(responseVerifier := Some(UnderKey(s, normalKey))))
    ensures !Impartial(H, d, cfg, q.(responseVerifier := Some(UnderKey(s, duressKey))))
    ensures Impartial(H, d, cfg, q.(responseVerifier := Some(UnderEither(s, normalKey, duressKey))))
  {
    hide SlotBody;
    var c: Digest := seq(32, _ => 0);
    assert SlotVerifies(H, d, cfg, UnderKey(s, normalKey), Normal, c) && !SlotVerifies(H, d, cfg, UnderKey(s, normalKey), Duress, c);
    assert SlotVerifies(H, d, cfg, UnderKey(s, duressKey), Duress, c) && !SlotVerifies(H, d, cfg, UnderKey(s, duressKey), Normal, c);
  }

  /** The one key a card object carries is the normal slot's, and a reader that checks responses under the
      key of the object it is shown sees every duress presentation fail: possession is proven under the
      normal PIN and the response is refused under the duress PIN, at the first reading.  Such a reader's
      screen shows which PIN was entered. */
  lemma ObjectKeyShowsDuress(H: Hash, d: Device, cfg: Config, w: Counter, q: Request, s: Scheme, duressKey: Bytes, c: Digest)
    requires Enrolled(cfg) && |cfg.normal| <= MAX_PIN && 0 < |d.scope| <= MAX_SCOPE
    requires w.card.cardObject.Some? && w.card.tries > 0 && c !in w.dev.spent && w.readings == []
    requires Decoding(w.card.cardObject.value).Ok?
    requires var normalKey := Lookup(Decoding(w.card.cardObject.value).value, 8);
             && normalKey.Raw? && KeysTellSlots(s, cfg, normalKey.bytes, duressKey)
             && q.responseVerifier == Some(UnderKey(s, normalKey.bytes))
    ensures var v := Answers(H, d, cfg, w, [Reads(cfg.normal, true, c), Judges(0, q)])[1];
            var u := Answers(H, d, cfg, w, [Reads(cfg.duress, true, c), Judges(0, q)])[1];
            && v.HasJudged? && v.verdict.Ok? && v.verdict.value.possession
            && u.HasJudged? && u.verdict.Ok? && !u.verdict.value.possession && u.verdict.value.note == Some(ResponseFailed)
    ensures w.dev.spent == {} ==> !RunsLookAlike(H, d, cfg, w, q)
  {
    hide Answers, Enrolled, Decoding, Lookup, RunsLookAlike, Impartial;
    var normalKey := Lookup(Decoding(w.card.cardObject.value).value, 8).bytes;
    OpensSlot(cfg);
    EnrolledLengths(cfg);
    BothAnswer(H, cfg, Duress, d.scope, c);
    ReadAndJudged(H, d, cfg, w, cfg.normal, c, q);
    ReadAndJudged(H, d, cfg, w, cfg.duress, c, q);
    KeyReadersImpartial(H, d, cfg, q, s, normalKey, duressKey);
    if w.dev.spent == {} { RunsLookAlikeIff(H, d, cfg, w, q); }
  }
}
