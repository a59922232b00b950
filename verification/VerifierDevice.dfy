/** The device at the counter: it issues challenges, reads a card, and decides a presentation. */
module VerifierDevice {
  import opened ByteStrings
  import opened Utf8
  import opened CardProfile
  import opened CardIssuance
  import opened Presentation
  import opened CardMachine
  import opened CardRuns
  import opened CardReader
  import opened SoftwareToken

  // ------------------------------------------------------------------
  // What a decision is given and what it says
  // ------------------------------------------------------------------

  datatype Presented = Presented(scope: Text, challenge: Bytes, handle: Bytes, signature: Bytes, cardObject: Option<Bytes>)

  /** A status assertion: the token value it names, and everything else in it. */
  datatype Assertion = Assertion(tokenValue: Text, rest: Bytes)

  /** What the detached verifier says of a status assertion. */
  datatype StatusVerdict = StatusVerdict(authentic: bool, isFresh: Option<bool>, status: Option<string>)

  datatype StatusVerifier = StatusVerifier(f: (Assertion, Option<int>, Option<int>) -> StatusVerdict)

  function CheckStatus(v: StatusVerifier, a: Assertion, now: Option<int>, window: Option<int>): StatusVerdict {
    v.f(a, now, window)
  }

  datatype OnlineStatus = OnlineStatus(tokenValue: Text, credentialRef: Bytes, status: Option<string>)

  datatype Request = Request(
    cardVerifier: Option<Verifier>, responseVerifier: Option<Verifier>,
    assertion: Option<Assertion>, statusVerifier: Option<StatusVerifier>, online: Option<OnlineStatus>,
    now: Option<int>)

  datatype Mode = Offline | Online

  datatype Linkability = Unestablished | Pairwise | CredentialLinkable

  datatype Note =
    | MissingField | OtherScope | AlreadyAnswered | NotIssued | NoResponseVerifier | ResponseFailed
    | CardRefused | NoStatusVerifier | StatusNotAuthentic | StatusNotFresh | PossessionOnly | NotActive | NoCardObject

  datatype DeviceVerdict = DeviceVerdict(
    possession: bool, cardAuthentic: Option<bool>, status: Option<string>, isFresh: Option<bool>, accepted: bool,
    mode: Option<Mode>, linkability: Linkability, handle: Option<Bytes>, note: Option<Note>)

  const NOTHING := DeviceVerdict(false, None, None, None, false, None, Unestablished, None, None)

  datatype Device = Device(scope: Text, window: Option<int>, requirePq: bool)

  datatype DeviceState = DeviceState(open: set<Bytes>, spent: set<Bytes>)

  // ------------------------------------------------------------------
  // The decision
  // ------------------------------------------------------------------

  /** Why a presentation is turned away before its signature is looked at. */
  function TurnedAway(d: Device, s: DeviceState, p: Presented): Option<Note> {
    if p.challenge == [] || p.handle == [] || p.signature == [] || p.scope == [] then Some(MissingField)
    else if p.scope != d.scope then Some(OtherScope)
    else if p.challenge in s.spent then Some(AlreadyAnswered)
    else if p.challenge !in s.open then Some(NotIssued)
    else None
  }

  function Retired(s: DeviceState, challenge: Bytes): DeviceState {
    DeviceState(s.open - {challenge}, s.spent + {challenge})
  }

  /** The next state and the verdict, or the error the response body raises. */
  datatype Decision = Decision(state: DeviceState, verdict: Result<DeviceVerdict, CardError>)

  function Decide(H: Hash, d: Device, s: DeviceState, p: Presented, q: Request): Decision {
    match TurnedAway(d, s, p)
    case Some(note) => Decision(s, Ok(NOTHING.(note := Some(note))))
    case None => Decision(Retired(s, p.challenge), Possession(H, d, p, q))
  }

  function Possession(H: Hash, d: Device, p: Presented, q: Request): Result<DeviceVerdict, CardError> {
    match ResponseBody(p.challenge, p.scope, p.handle)
    case Err(e) => Err(e)
    case Ok(body) =>
      if q.responseVerifier == None then Ok(NOTHING.(note := Some(NoResponseVerifier)))
      else if !Verifies(q.responseVerifier.value, body, p.signature) then Ok(NOTHING.(note := Some(ResponseFailed)))
      else Ok(Authenticity(H, d, p, q, NOTHING.(possession := true, handle := Some(p.handle), linkability := Pairwise)))
  }

  function Authenticity(H: Hash, d: Device, p: Presented, q: Request, v: DeviceVerdict): DeviceVerdict {
    if p.cardObject == None then Authorization(d, p, q, v)
    else
      var authentic := Authentic(H, p.cardObject.value, q.cardVerifier, None, d.requirePq, q.now);
      if !authentic then v.(cardAuthentic := Some(false), note := Some(CardRefused))
      else Authorization(d, p, q, v.(cardAuthentic := Some(true)))
  }

  function Authorization(d: Device, p: Presented, q: Request, v: DeviceVerdict): DeviceVerdict {
    if q.assertion.Some? then
      var a := q.assertion.value;
      var v := v.(mode := Some(Offline), linkability := if a.tokenValue != [] then CredentialLinkable else v.linkability);
      if q.statusVerifier == None then v.(note := Some(NoStatusVerifier))
      else
        var sv := CheckStatus(q.statusVerifier.value, a, q.now, d.window);
        var v := v.(status := sv.status, isFresh := sv.isFresh);
        if !sv.authentic then v.(note := Some(StatusNotAuthentic))
        else if sv.isFresh != Some(true) then v.(note := Some(StatusNotFresh))
        else Standing(p, v)
    else if q.online.Some? then
      var o := q.online.value;
      var link := if o.tokenValue != [] || o.credentialRef != [] then CredentialLinkable else v.linkability;
      Standing(p, v.(mode := Some(Online), linkability := link, status := o.status, isFresh := Some(true)))
    else v.(note := Some(PossessionOnly))
  }

  function Standing(p: Presented, v: DeviceVerdict): DeviceVerdict {
    if v.status != Some("ACTIVE") then v.(note := Some(NotActive))
    else if p.cardObject == None then v.(note := Some(NoCardObject))
    else v.(accepted := true)
  }

  // ------------------------------------------------------------------
  // Reading a card
  // ------------------------------------------------------------------

  datatype DeviceRefusal = NoSelect | PinRefused(response: Bytes) | NoPresentation | CommandDoesNotFit | NoScope

  datatype Reading = Reading(card: CardState, presented: Result<Presented, DeviceRefusal>)

  function ReadCard(H: Hash, d: Device, cfg: Config, s: CardState, pin: Text, wantObject: bool, challenge: Bytes): Reading {
    var selected := Step(H, cfg, s, SELECT_COMMAND);
    if !IsOk(selected.response) then Reading(selected.state, Err(NoSelect))
    else
      match VerifyPinCommand(pin)
      case Err(_) => Reading(selected.state, Err(CommandDoesNotFit))
      case Ok(command) =>
        var unlocked := Step(H, cfg, selected.state, command);
        if !IsOk(unlocked.response) then Reading(unlocked.state, Err(PinRefused(unlocked.response)))
        else SignedReading(H, d, cfg, unlocked.state, wantObject, challenge)
  }

  function SignedReading(H: Hash, d: Device, cfg: Config, s: CardState, wantObject: bool, challenge: Bytes): Reading {
    match SignCommand(d.scope, challenge)
    case Err(_) => Reading(s, Err(CommandDoesNotFit))
    case Ok(command) =>
      var signed := Step(H, cfg, s, command);
      var parsed := ParseSigned(signed.response);
      if parsed == None then Reading(signed.state, Err(NoPresentation))
      else if !wantObject then
        Reading(signed.state, Ok(Presented(d.scope, challenge, parsed.value.handle, parsed.value.signature, None)))
      else
        var shown := Step(H, cfg, signed.state, GET_COMMAND);
        var cardObject := if IsOk(shown.response) then Some(Payload(shown.response)) else None;
        Reading(shown.state, Ok(Presented(d.scope, challenge, parsed.value.handle, parsed.value.signature, cardObject)))
  }

  // ------------------------------------------------------------------
  // The device as an object
  // ------------------------------------------------------------------

  class VerifierDevice {
    const device: Device
    var open: set<Bytes>
    var spent: set<Bytes>

    ghost function State(): DeviceState
      reads this
    {
      DeviceState(open, spent)
    }

    constructor (device: Device)
      ensures this.device == device && State() == DeviceState({}, {})
    {
      this.device := device;
      open, spent := {}, {};
    }

    /** Makes a device; one without a scope is refused. */
    static method Make(scope: Text, window: Option<int>, requirePq: bool) returns (r: Result<VerifierDevice, DeviceRefusal>)
      ensures r.Err? <==> scope == []
      ensures r.Ok? ==> fresh(r.value) && r.value.device == Device(scope, window, requirePq) && r.value.State() == DeviceState({}, {})
    {
      if scope == [] { return Err(NoScope); }
      var made := new VerifierDevice(Device(scope, window, requirePq));
      r := Ok(made);
    }

    /** A challenge from the random source, remembered until it is answered. */
    method Challenge(random: Digest) returns (c: Bytes)
      modifies this`open
      ensures c == random && State() == old(State()).(open := old(open) + {random})
    {
      open := open + {random};
      c := random;
    }

    method Retire(challenge: Bytes) returns (refused: Option<Note>)
      modifies this
      ensures refused == (if challenge in old(spent) then Some(AlreadyAnswered)
                          else if challenge !in old(open) then Some(NotIssued) else None)
      ensures State() == if refused == None then Retired(old(State()), challenge) else old(State())
    {
      if challenge in spent { return Some(AlreadyAnswered); }
      if challenge !in open { return Some(NotIssued); }
      open := open - {challenge};
      spent := spent + {challenge};
      refused := None;
    }

    method ReadNfc(H: Hash, card: Token, pin: Text, wantObject: bool, random: Digest) returns (r: Result<Presented, DeviceRefusal>)
      modifies this`open, card
      ensures State() == old(State()).(open := old(open) + {random})
      ensures Reading(card.State(), r) == ReadCard(H, device, card.cfg, old(card.State()), pin, wantObject, random)
    {
      hide Step, ParseSigned, IsOk, VerifyPinCommand, SignCommand, Payload;
      var challenge := Challenge(random);
      var response := card.Transmit(H, SELECT_COMMAND);
      if !IsOk(response) { return Err(NoSelect); }
      var pinCommand := VerifyPinCommand(pin);
      if pinCommand.Err? { return Err(CommandDoesNotFit); }
      response := card.Transmit(H, pinCommand.value);
      if !IsOk(response) { return Err(PinRefused(response)); }
      var signCommand := SignCommand(device.scope, challenge);
      if signCommand.Err? { return Err(CommandDoesNotFit); }
      response := card.Transmit(H, signCommand.value);
      var parsed := ParseSigned(response);
      if parsed == None { return Err(NoPresentation); }
      var cardObject := None;
      if wantObject {
        response := card.Transmit(H, GET_COMMAND);
        if IsOk(response) { cardObject := Some(Payload(response)); }
      }
      r := Ok(Presented(device.scope, challenge, parsed.value.handle, parsed.value.signature, cardObject));
    }

    method DecideOn(H: Hash, p: Presented, q: Request) returns (r: Result<DeviceVerdict, CardError>)
      modifies this
      ensures Decision(State(), r) == Decide(H, device, old(State()), p, q)
    {
      hide ResponseBody, Authentic, Verifies, CheckStatus;
      var v := NOTHING;
      if p.challenge == [] || p.handle == [] || p.signature == [] || p.scope == [] {
        return Ok(v.(note := Some(MissingField)));
      }
      if p.scope != device.scope { return Ok(v.(note := Some(OtherScope))); }
      var refused := Retire(p.challenge);
      if refused.Some? { return Ok(v.(note := refused)); }

      var body := ResponseBody(p.challenge, p.scope, p.handle);
      if body.Err? { return Err(body.error); }
      if q.responseVerifier == None { return Ok(v.(note := Some(NoResponseVerifier))); }
      if !Verifies(q.responseVerifier.value, body.value, p.signature) { return Ok(v.(note := Some(ResponseFailed))); }
      v := v.(possession := true, handle := Some(p.handle), linkability := Pairwise);

      if p.cardObject.Some? {
        var verdict := VerifyCard(H, p.cardObject.value, q.cardVerifier, None, device.requirePq, q.now);
        v := v.(cardAuthentic := Some(verdict.authentic));
        if !verdict.authentic { return Ok(v.(note := Some(CardRefused))); }
      }

      if q.assertion.Some? {
        v := v.(mode := Some(Offline));
        if q.assertion.value.tokenValue != [] { v := v.(linkability := CredentialLinkable); }
        if q.statusVerifier == None { return Ok(v.(note := Some(NoStatusVerifier))); }
        var sv := CheckStatus(q.statusVerifier.value, q.assertion.value, q.now, device.window);
        v := v.(status := sv.status, isFresh := sv.isFresh);
        if !sv.authentic { return Ok(v.(note := Some(StatusNotAuthentic))); }
        if sv.isFresh != Some(true) { return Ok(v.(note := Some(StatusNotFresh))); }
      } else if q.online.Some? {
        v := v.(mode := Some(Online));
        if q.online.value.tokenValue != [] || q.online.value.credentialRef != [] { v := v.(linkability := CredentialLinkable); }
        v := v.(status := q.online.value.status, isFresh := Some(true));
      } else {
        return Ok(v.(note := Some(PossessionOnly)));
      }

      if v.status != Some("ACTIVE") { return Ok(v.(note := Some(NotActive))); }
      if p.cardObject == None { return Ok(v.(note := Some(NoCardObject))); }
      v := v.(accepted := true);
      r := Ok(v);
    }
  }
}
