/** The retry counters and the lifecycle of a card over every run. */
module CardCounters {
  import opened ByteStrings
  import opened CardProfile
  import opened CardMachine
  import opened CardRuns

  // ------------------------------------------------------------------
  // Guesses
  // ------------------------------------------------------------------

  /** What a VERIFY or UNBLOCK command that the card compares turns out to be. */
  datatype Guess = NoGuess | RightPin | WrongPin | RightPuk | WrongPuk

  function GuessOf(cfg: Config, s: CardState, e: Event): Guess {
    if !s.selected then NoGuess
    else if Carries(e, INS_VERIFY_PIN) && s.tries > 0 then
      var x := Supplied(Parse(e.apdu).value.data);
      var n, d := Compare(x, cfg.normal), Compare(x, cfg.duress);
      if n == None || d == None then NoGuess else if x == cfg.normal || x == cfg.duress then RightPin else WrongPin
    else if Carries(e, INS_UNBLOCK) && s.pukTries > 0 then
      var x := Supplied(Parse(e.apdu).value.data);
      if Compare(x, cfg.puk) == None then NoGuess else if x == cfg.puk then RightPuk else WrongPuk
    else NoGuess
  }

  /** How many guesses of one kind a run makes. */
  function Guesses(H: Hash, cfg: Config, s: CardState, events: seq<Event>, g: Guess): nat
    decreases |events|
  {
    if events == [] then 0
    else (if GuessOf(cfg, s, events[0]) == g then 1 else 0) + Guesses(H, cfg, After(H, cfg, s, events[0]).state, events[1..], g)
  }

  lemma StepMovesCounters(H: Hash, cfg: Config, s: CardState, e: Event)
    requires Sound(s)
    ensures var s', g := After(H, cfg, s, e).state, GuessOf(cfg, s, e);
            && s'.tries == (match g case RightPin => MAX_PIN_TRIES case RightPuk => MAX_PIN_TRIES case WrongPin => s.tries - 1 case _ => s.tries)
            && s'.pukTries == (match g case RightPuk => MAX_PUK_TRIES case WrongPuk => s.pukTries - 1 case _ => s.pukTries)
            && (g == WrongPin ==> s'.unlocked == None) && (g == RightPin ==> s'.unlocked.Some?)
  {
    hide Decoding, Parse, SwBytes, Supplied, SignChallenge, KeysPayload, Generated, Utf8.IsAscii;
    if Carries(e, INS_SIGN_CHALLENGE) { SigningKeepsState(H, cfg, s, Parse(e.apdu).value.data); }
  }

  /** Each right PIN or PUK buys at most three wrong PINs, and each right PUK ten wrong PUKs. */
  lemma {:induction false} CountersAreBudgets(H: Hash, cfg: Config, s: CardState, events: seq<Event>)
    requires Sound(s)
    ensures var end := Run(H, cfg, s, events);
            && Guesses(H, cfg, s, events, WrongPin) + end.tries
               <= s.tries + MAX_PIN_TRIES * (Guesses(H, cfg, s, events, RightPin) + Guesses(H, cfg, s, events, RightPuk))
            && Guesses(H, cfg, s, events, WrongPuk) + end.pukTries
               <= s.pukTries + MAX_PUK_TRIES * Guesses(H, cfg, s, events, RightPuk)
    decreases |events|
  {
    hide After, Sound, GuessOf;
    SoundRanges(s);
    if events != [] {
      StepMovesCounters(H, cfg, s, events[0]);
      StepKeepsSound(H, cfg, s, events[0]);
      CountersAreBudgets(H, cfg, After(H, cfg, s, events[0]).state, events[1..]);
    }
  }

  lemma SoundRanges(s: CardState)
    requires Sound(s)
    ensures 0 <= s.tries <= MAX_PIN_TRIES && 0 <= s.pukTries <= MAX_PUK_TRIES
    ensures s.unlocked.Some? ==> s.selected && s.tries == MAX_PIN_TRIES
  {
  }

  /** From the day it was made, over any run and any number of power cycles. */
  lemma GuessesAreBounded(H: Hash, cfg: Config, cardObject: Option<Bytes>, events: seq<Event>)
    requires cardObject.Some? ==> Decoding(cardObject.value).Ok?
    ensures var s := Made(cardObject);
            && Guesses(H, cfg, s, events, WrongPin)
               <= 3 * (1 + Guesses(H, cfg, s, events, RightPin) + Guesses(H, cfg, s, events, RightPuk))
            && Guesses(H, cfg, s, events, WrongPuk) <= 10 * (1 + Guesses(H, cfg, s, events, RightPuk))
  {
    hide Guesses, Run;
    CountersAreBudgets(H, cfg, Made(cardObject), events);
    RunKeepsSound(H, cfg, Made(cardObject), events);
  }

  // ------------------------------------------------------------------
  // A dead card stays dead
  // ------------------------------------------------------------------

  predicate Dead(s: CardState) {
    Sound(s) && s.tries == 0 && s.pukTries == 0
  }

  lemma StepStaysDead(H: Hash, cfg: Config, s: CardState, e: Event)
    requires Dead(s)
    ensures Dead(After(H, cfg, s, e).state)
    ensures || Carries(e, INS_VERIFY_PIN) || Carries(e, INS_UNBLOCK) || Carries(e, INS_SIGN_CHALLENGE)
            || Carries(e, INS_GET_CARD_OBJECT)
            ==> !IsOk(After(H, cfg, s, e).response)
  {
    hide Parse, IsOk, SwBytes, Sound;
    StepKeepsSound(H, cfg, s, e);
    StepMovesCounters(H, cfg, s, e);
    SoundRanges(s);
    OkStatus(SW_BLOCKED);
    OkStatus(SW_SECURITY_NOT_SATISFIED);
    OkStatus(SW_CONDITIONS_NOT_SATISFIED);
  }

  /** With both counters at zero a card never again accepts a PIN or a PUK, signs, or shows its
      object, whatever it is sent and however often it is power-cycled. */
  lemma {:induction false} DeadForever(H: Hash, cfg: Config, s: CardState, events: seq<Event>, i: nat)
    requires Dead(s) && i < |events|
    requires || Carries(events[i], INS_VERIFY_PIN) || Carries(events[i], INS_UNBLOCK)
             || Carries(events[i], INS_SIGN_CHALLENGE) || Carries(events[i], INS_GET_CARD_OBJECT)
    ensures !IsOk(Responses(H, cfg, s, events)[i])
    decreases |events|
  {
    hide After, Dead, IsOk, Carries;
    StepStaysDead(H, cfg, s, events[0]);
    if i > 0 { DeadForever(H, cfg, After(H, cfg, s, events[0]).state, events[1..], i - 1); }
  }

  // ------------------------------------------------------------------
  // Lifecycle
  // ------------------------------------------------------------------

  lemma StepKeepsObject(H: Hash, cfg: Config, s: CardState, e: Event)
    requires Sound(s)
    ensures s.cardObject.Some? ==> After(H, cfg, s, e).state.cardObject == s.cardObject
    ensures s.generated ==> After(H, cfg, s, e).state.generated
    ensures Carries(e, INS_GENERATE_KEYPAIR) && IsOk(After(H, cfg, s, e).response) ==>
              s.cardObject == None && !s.generated && After(H, cfg, s, e).state.generated
    ensures Carries(e, INS_GET_CARD_OBJECT) && IsOk(After(H, cfg, s, e).response) ==>
              s.cardObject.Some? && After(H, cfg, s, e).response == s.cardObject.value + SwBytes(SW_OK)
  {
    hide Parse, IsOk, SwBytes, Decoding, KeysPayload, Compare, SignChallenge;
    if Carries(e, INS_SIGN_CHALLENGE) { SigningKeepsState(H, cfg, s, Parse(e.apdu).value.data); }
    OkStatus(SW_ALREADY_PERSONALIZED);
    OkStatus(SW_SECURITY_NOT_SATISFIED);
    OkStatus(SW_CONDITIONS_NOT_SATISFIED);
  }

  /** An object, once loaded, is the card's for good. */
  lemma {:induction false} ObjectIsForGood(H: Hash, cfg: Config, s: CardState, events: seq<Event>)
    requires Sound(s)
    ensures s.cardObject.Some? ==> Run(H, cfg, s, events).cardObject == s.cardObject
    ensures s.generated ==> Run(H, cfg, s, events).generated
    decreases |events|
  {
    hide After, Sound;
    if events != [] {
      StepKeepsSound(H, cfg, s, events[0]);
      StepKeepsObject(H, cfg, s, events[0]);
      ObjectIsForGood(H, cfg, After(H, cfg, s, events[0]).state, events[1..]);
    }
  }

  /** How many GENERATE KEYPAIR commands of a run succeed. */
  function Generations(H: Hash, cfg: Config, s: CardState, events: seq<Event>): nat
    decreases |events|
  {
    if events == [] then 0
    else
      var a := After(H, cfg, s, events[0]);
      (if Carries(events[0], INS_GENERATE_KEYPAIR) && IsOk(a.response) then 1 else 0) + Generations(H, cfg, a.state, events[1..])
  }

  /** Keys are generated at most once, and never on a card that holds an object. */
  lemma {:induction false} GeneratesAtMostOnce(H: Hash, cfg: Config, s: CardState, events: seq<Event>)
    requires Sound(s)
    ensures Generations(H, cfg, s, events) <= if s.generated || s.cardObject.Some? then 0 else 1
    decreases |events|
  {
    hide After, Sound, IsOk, Carries;
    if events != [] {
      StepKeepsSound(H, cfg, s, events[0]);
      StepKeepsObject(H, cfg, s, events[0]);
      GeneratesAtMostOnce(H, cfg, After(H, cfg, s, events[0]).state, events[1..]);
    }
  }

  /** In any run, what GET CARD OBJECT returns is the object the card held at any earlier point at
      which it held one. */
  lemma ReadsWhatWasLoaded(H: Hash, cfg: Config, s: CardState, events: seq<Event>, i: nat)
    requires Sound(s) && s.cardObject.Some? && i < |events|
    requires Carries(events[i], INS_GET_CARD_OBJECT) && IsOk(Responses(H, cfg, s, events)[i])
    ensures Responses(H, cfg, s, events)[i] == s.cardObject.value + SwBytes(SW_OK)
  {
    hide After, Sound, IsOk, Responses, Run, Carries, SwBytes;
    ResponseAt(H, cfg, s, events, i);
    RunKeepsSound(H, cfg, s, events[..i]);
    ObjectIsForGood(H, cfg, s, events[..i]);
    StepKeepsObject(H, cfg, Run(H, cfg, s, events[..i]), events[i]);
  }

  // ------------------------------------------------------------------
  // Nothing is shown without a PIN
  // ------------------------------------------------------------------

  lemma {:induction false} RunExtends(H: Hash, cfg: Config, s: CardState, events: seq<Event>, i: nat)
    requires i < |events|
    ensures Run(H, cfg, s, events[..i + 1]) == After(H, cfg, Run(H, cfg, s, events[..i]), events[i]).state
    decreases i
  {
    hide After;
    if i == 0 {
      assert events[..1] == [events[0]] && events[..1][1..] == [] && events[..0] == [];
    } else {
      RunExtends(H, cfg, After(H, cfg, s, events[0]).state, events[1..], i - 1);
      assert events[..i + 1][1..] == events[1..][..i] && events[..i][1..] == events[1..][..i - 1];
    }
  }

  /** An event that takes an authentication away. */
  predicate Locks(cfg: Config, s: CardState, e: Event) {
    e == PowerCycle || Carries(e, INS_SELECT) || GuessOf(cfg, s, e) == WrongPin
  }

  /** A right PIN at j that nothing has taken away by i. */
  ghost predicate OpenSince(H: Hash, cfg: Config, s: CardState, events: seq<Event>, j: nat, i: nat)
    requires j < i <= |events|
  {
    && GuessOf(cfg, Run(H, cfg, s, events[..j]), events[j]) == RightPin
    && forall k :: j < k < i ==> !Locks(cfg, Run(H, cfg, s, events[..k]), events[k])
  }

  lemma StepOpens(H: Hash, cfg: Config, s: CardState, e: Event)
    requires Sound(s) && After(H, cfg, s, e).state.unlocked.Some?
    ensures GuessOf(cfg, s, e) == RightPin || (s.unlocked.Some? && !Locks(cfg, s, e))
  {
    hide Decoding, Parse, SwBytes, Supplied, SignChallenge, KeysPayload, Generated, SelectPayload, Utf8.IsAscii;
    if Carries(e, INS_SIGN_CHALLENGE) { SigningKeepsState(H, cfg, s, Parse(e.apdu).value.data); }
  }

  lemma {:induction false} OpenedByAPin(H: Hash, cfg: Config, s: CardState, events: seq<Event>, i: nat)
    requires Sound(s) && s.unlocked == None && i <= |events|
    requires Run(H, cfg, s, events[..i]).unlocked.Some?
    ensures exists j :: 0 <= j < i && OpenSince(H, cfg, s, events, j, i)
    decreases i
  {
    hide After, Sound, GuessOf, Locks, Run;
    RunOfNothing(H, cfg, s, events);
    if i > 0 {
      var t := Run(H, cfg, s, events[..i - 1]);
      RunExtends(H, cfg, s, events, i - 1);
      RunKeepsSound(H, cfg, s, events[..i - 1]);
      StepOpens(H, cfg, t, events[i - 1]);
      if GuessOf(cfg, t, events[i - 1]) == RightPin {
        assert OpenSince(H, cfg, s, events, i - 1, i);
      } else {
        OpenedByAPin(H, cfg, s, events, i - 1);
        var j :| 0 <= j < i - 1 && OpenSince(H, cfg, s, events, j, i - 1);
        assert OpenSince(H, cfg, s, events, j, i);
      }
    }
  }

  lemma RunOfNothing(H: Hash, cfg: Config, s: CardState, events: seq<Event>)
    ensures Run(H, cfg, s, events[..0]) == s
  {
  }

  /** Whenever a card signs or shows its object, a right PIN came earlier in the run, and no power
      cycle, SELECT or wrong PIN since. */
  lemma ShownOnlyAfterPin(H: Hash, cfg: Config, s: CardState, events: seq<Event>, i: nat)
    requires Sound(s) && s.unlocked == None && i < |events|
    requires Carries(events[i], INS_SIGN_CHALLENGE) || Carries(events[i], INS_GET_CARD_OBJECT)
    requires IsOk(Responses(H, cfg, s, events)[i])
    ensures exists j :: 0 <= j < i && OpenSince(H, cfg, s, events, j, i)
  {
    hide Run, Responses, Parse, IsOk, SwBytes;
    ResponseAt(H, cfg, s, events, i);
    OkStatus(SW_SECURITY_NOT_SATISFIED);
    OkStatus(SW_CONDITIONS_NOT_SATISFIED);
    OpenedByAPin(H, cfg, s, events, i);
  }
}
