/** What a device's verdicts establish, over every sequence of its operations. */
module DeviceTheorems {
  import opened ByteStrings
  import opened Utf8
  import opened CardProfile
  import opened CardCodec
  import opened CardIssuance
  import opened CardBuilding
  import opened IssuerSignatures
  import opened Presentation
  import opened VerifierDevice

  // ------------------------------------------------------------------
  // One decision
  // ------------------------------------------------------------------

  /** Authorization: the credential is ACTIVE, by a fresh authentic assertion when one is given and
      by the online answer otherwise. */
  predicate Active(d: Device, q: Request) {
    if q.assertion.Some? then
      && q.statusVerifier.Some?
      && var sv := CheckStatus(q.statusVerifier.value, q.assertion.value, q.now, d.window);
         sv.authentic && sv.isFresh == Some(true) && sv.status == Some("ACTIVE")
    else
      q.online.Some? && q.online.value.status == Some("ACTIVE")
  }

  /** Possession: a live challenge of this device, answered for its scope under a signature. */
  predicate Possessed(d: Device, s: DeviceState, p: Presented, q: Request) {
    && p.challenge != [] && p.handle != [] && p.signature != [] && p.scope != []
    && p.scope == d.scope
    && p.challenge in s.open && p.challenge !in s.spent
    && q.responseVerifier.Some?
    && var body := ResponseBody(p.challenge, p.scope, p.handle);
       body.Ok? && Verifies(q.responseVerifier.value, body.value, p.signature)
  }

  /** A presentation is accepted exactly when all three facts hold, each on its own. */
  lemma AcceptedIff(H: Hash, d: Device, s: DeviceState, p: Presented, q: Request)
    ensures var v := Decide(H, d, s, p, q).verdict;
            && (v.Ok? && v.value.possession <==> Possessed(d, s, p, q))
            && (v.Ok? && v.value.accepted
                <==> && Possessed(d, s, p, q)
                     && p.cardObject.Some?
                     && Authentic(H, p.cardObject.value, q.cardVerifier, None, d.requirePq, q.now)
                     && Active(d, q))
  {
    hide ResponseBody, Authentic, CheckStatus, Verifies;
  }

  /** Linkability is what the device learned, not what it accepted: the verdict says
      credential-linkable exactly when the device came as far as a status source that names the
      credential, whatever that source's check then says. */
  lemma LinkabilityIff(H: Hash, d: Device, s: DeviceState, p: Presented, q: Request)
    requires Decide(H, d, s, p, q).verdict.Ok?
    ensures Decide(H, d, s, p, q).verdict.value.linkability == CredentialLinkable
            <==> && Possessed(d, s, p, q)
                 && (p.cardObject.Some? ==> Authentic(H, p.cardObject.value, q.cardVerifier, None, d.requirePq, q.now))
                 && (if q.assertion.Some? then q.assertion.value.tokenValue != []
                     else q.online.Some? && (q.online.value.tokenValue != [] || q.online.value.credentialRef != []))
  {
    hide ResponseBody, Authentic, CheckStatus, Verifies;
  }

  /** A presentation for another scope, or to a challenge that is not open, changes nothing: it
      does not use up the challenge.  Any other moves it from the open to the spent ones. */
  lemma TurnedAwayKeepsState(H: Hash, d: Device, s: DeviceState, p: Presented, q: Request)
    ensures Decide(H, d, s, p, q).state
            == if && p.challenge != [] && p.handle != [] && p.signature != [] && p.scope == d.scope != []
                  && p.challenge in s.open && p.challenge !in s.spent
               then DeviceState(s.open - {p.challenge}, s.spent + {p.challenge}) else s
  {
    hide ResponseBody, Authentic, CheckStatus, Verifies;
  }

  // ------------------------------------------------------------------
  // Every part of a verdict
  // ------------------------------------------------------------------

  /** What a device found out about the card object, if it came to look at one. */
  function Authenticated(H: Hash, d: Device, s: DeviceState, p: Presented, q: Request): Option<bool> {
    if Possessed(d, s, p, q) && p.cardObject.Some?
    then Some(Authentic(H, p.cardObject.value, q.cardVerifier, None, d.requirePq, q.now)) else None
  }

  /** Possession is proven and no card object was found wanting: the device goes on to the status. */
  predicate AsksStatus(H: Hash, d: Device, s: DeviceState, p: Presented, q: Request) {
    Possessed(d, s, p, q) && Authenticated(H, d, s, p, q) != Some(false)
  }

  /** The three facts are kept apart: a verdict reports each from its own evidence, and what was not looked
      at it does not report. */
  lemma VerdictKeepsFactsApart(H: Hash, d: Device, s: DeviceState, p: Presented, q: Request)
    requires Decide(H, d, s, p, q).verdict.Ok?
    ensures var v, asks := Decide(H, d, s, p, q).verdict.value, AsksStatus(H, d, s, p, q);
            && v.possession == Possessed(d, s, p, q)
            && v.handle == (if v.possession then Some(p.handle) else None)
            && v.cardAuthentic == Authenticated(H, d, s, p, q)
            && v.mode == (if asks && q.assertion.Some? then Some(Offline) else if asks && q.online.Some? then Some(Online) else None)
            && (v.mode == None ==> v.status == None && v.isFresh == None)
            && (v.mode == Some(Online) ==> v.status == q.online.value.status && v.isFresh == Some(true))
            && (v.mode == Some(Offline) && q.statusVerifier == None ==> v.status == None && v.isFresh == None)
            && (v.mode == Some(Offline) && q.statusVerifier.Some? ==>
                  var sv := CheckStatus(q.statusVerifier.value, q.assertion.value, q.now, d.window);
                  v.status == sv.status && v.isFresh == sv.isFresh)
            && (v.linkability == Unestablished <==> !v.possession)
            && v.accepted == (asks && p.cardObject.Some? && Active(d, q))
  {
    hide ResponseBody, Authentic, CheckStatus, Verifies;
  }

  /** Why a presentation that the device went on to ask the status of is not accepted. */
  function StatusNote(d: Device, p: Presented, q: Request): Option<Note> {
    if q.assertion.Some? && q.statusVerifier == None then Some(NoStatusVerifier)
    else if q.assertion == None && q.online == None then Some(PossessionOnly)
    else
      var sv := if q.assertion.Some? then CheckStatus(q.statusVerifier.value, q.assertion.value, q.now, d.window)
                else StatusVerdict(true, Some(true), q.online.value.status);
      if !sv.authentic then Some(StatusNotAuthentic)
      else if sv.isFresh != Some(true) then Some(StatusNotFresh)
      else if sv.status != Some("ACTIVE") then Some(NotActive)
      else if p.cardObject == None then Some(NoCardObject)
      else None
  }

  /** A verdict names the first thing it lacks: something of the presentation, this device's scope, a live
      challenge, a signature that verifies, an authentic object, or a status that stands. */
  lemma NoteNamesFirstLack(H: Hash, d: Device, s: DeviceState, p: Presented, q: Request)
    requires Decide(H, d, s, p, q).verdict.Ok?
    ensures Decide(H, d, s, p, q).verdict.value.note
            == if [] in {p.challenge, p.handle, p.signature, p.scope} then Some(MissingField)
               else if p.scope != d.scope then Some(OtherScope)
               else if p.challenge in s.spent then Some(AlreadyAnswered)
               else if p.challenge !in s.open then Some(NotIssued)
               else if q.responseVerifier == None then Some(NoResponseVerifier)
               else if !Possessed(d, s, p, q) then Some(ResponseFailed)
               else if Authenticated(H, d, s, p, q) == Some(false) then Some(CardRefused)
               else StatusNote(d, p, q)
  {
    hide ResponseBody, Authentic, CheckStatus, Verifies;
  }

  // ------------------------------------------------------------------
  // What a device checks of a card object
  // ------------------------------------------------------------------

  /** A built object is accepted exactly when the device checks its classical signature and finds it good.
      Of the post-quantum signature it checks only, when it is set to require one, that it is there. */
  lemma BuiltCardAccepted(H: Hash, d: Device, s: DeviceState, p: Presented, q: Request, c: CardSpec, classical: Option<Signer>,
                          pq: Option<Signer>)
    requires BuildCard(H, c, classical, pq).Ok? && p.cardObject == Some(BuildCard(H, c, classical, pq).value)
    ensures var v := Decide(H, d, s, p, q).verdict;
            v.Ok? && v.value.accepted
            <==> && Possessed(d, s, p, q) && Active(d, q) && KeysFit(c)
                 && classical.Some? && q.cardVerifier.Some?
                 && PassesCheck(q.cardVerifier, classical, BuildDigest(H, c))
                 && (d.requirePq ==> pq.Some?)
                 && (q.now.Some? ==> q.now.value < c.expiresAt)
  {
    hide Decide, BuildCard, Authentic, Possessed, Active, KeysFit, BuildDigest, Verifies;
    AcceptedIff(H, d, s, p, q);
    BuiltCardAuthentic(H, c, classical, pq, q.cardVerifier, None, d.requirePq, q.now);
  }

  /** A device that is set to require a post-quantum signature takes any bytes in its place: the verdict,
      whatever it is, does not change. */
  lemma RequiredSignatureIsFree(H: Hash, d: Device, s: DeviceState, p: Presented, q: Request, f: Fields, signature: Bytes)
    requires Admissible(f) && IssuerSigPq in f && |signature| <= MAX_LEN
    ensures var g := f[IssuerSigPq := Raw(signature)];
            && Encoding(f).Ok? && Encoding(g).Ok?
            && Decide(H, d, s, p.(cardObject := Some(Encoding(f).value)), q)
               == Decide(H, d, s, p.(cardObject := Some(Encoding(g).value)), q)
  {
    hide Encoding, Admissible, Authentic, ResponseBody, Verifies, CheckStatus;
    UncheckedSignatureIsFree(H, f, signature, q.cardVerifier, d.requirePq, q.now);
  }

  /** And the verdict can be acceptance.  Whatever string a post-quantum verifier rejects, there is an
      object that carries it as its post-quantum signature and that a device which requires such a
      signature accepts, from any holder it would accept at all. */
  lemma BadSignatureAccepted(H: Hash, d: Device, s: DeviceState, p: Presented, q: Request, good: Signer, bad: Bytes, u: Verifier)
    returns (blob: Bytes)
    requires Possessed(d, s, p, q) && Active(d, q) && d.requirePq && q.cardVerifier.Some?
    requires |bad| <= MAX_LEN && forall x: Bytes :: |Sign(good, x)| <= MAX_LEN
    requires forall x: Bytes :: Verifies(q.cardVerifier.value, x, Sign(good, x)) && !Verifies(u, x, bad)
    requires q.now.Some? ==> q.now.value < LAST_SECOND
    ensures var v := Decide(H, d, s, p.(cardObject := Some(blob)), q).verdict; v.Ok? && v.value.accepted
    ensures Decoding(blob).Ok? && Lookup(Decoding(blob).value, 11) == Raw(bad)
    ensures !Authentic(H, blob, q.cardVerifier, Some(u), true, q.now)
  {
    hide Decide, Authentic, Active, Verifies, Lookup, Decoding, ResponseBody;
    var other;
    blob, other := DowngradeIsAccepted(H, good, q.cardVerifier.value, bad, u, q.now);
    AcceptedIff(H, d, s, p.(cardObject := Some(blob)), q);
  }

  // ------------------------------------------------------------------
  // Every sequence of operations
  // ------------------------------------------------------------------

  /** A device issues a challenge, of whatever its random source gives, or decides. */
  datatype Operation = Issue(c: Digest) | Judge(p: Presented, q: Request)

  /** The state after a sequence of operations of a new device. */
  function StateAfter(H: Hash, d: Device, ops: seq<Operation>): DeviceState {
    if ops == [] then DeviceState({}, {})
    else
      var s, op := StateAfter(H, d, ops[..|ops| - 1]), ops[|ops| - 1];
      match op
      case Issue(c) => s.(open := s.open + {c})
      case Judge(p, q) => Decide(H, d, s, p, q).state
  }

  /** The verdict of the i-th operation. */
  function VerdictAt(H: Hash, d: Device, ops: seq<Operation>, i: nat): Result<DeviceVerdict, CardError>
    requires i < |ops| && ops[i].Judge?
  {
    Decide(H, d, StateAfter(H, d, ops[..i]), ops[i].p, ops[i].q).verdict
  }

  predicate Proven(H: Hash, d: Device, ops: seq<Operation>, i: nat)
    requires i < |ops|
  {
    ops[i].Judge? && VerdictAt(H, d, ops, i).Ok? && VerdictAt(H, d, ops, i).value.possession
  }

  lemma Next(H: Hash, d: Device, ops: seq<Operation>, i: nat)
    requires i < |ops|
    ensures StateAfter(H, d, ops[..i + 1])
            == match ops[i]
               case Issue(c) => var s := StateAfter(H, d, ops[..i]); s.(open := s.open + {c})
               case Judge(p, q) => Decide(H, d, StateAfter(H, d, ops[..i]), p, q).state
  {
    hide Decide;
    assert ops[..i + 1][..i] == ops[..i];
  }

  lemma {:induction false} SpentStaysSpent(H: Hash, d: Device, ops: seq<Operation>, i: nat, j: nat, c: Bytes)
    requires i <= j <= |ops| && c in StateAfter(H, d, ops[..i]).spent
    ensures c in StateAfter(H, d, ops[..j]).spent
    decreases j
  {
    hide Decide;
    if i < j {
      SpentStaysSpent(H, d, ops, i, j - 1, c);
      Next(H, d, ops, j - 1);
      if ops[j - 1].Judge? {
        TurnedAwayKeepsState(H, d, StateAfter(H, d, ops[..j - 1]), ops[j - 1].p, ops[j - 1].q);
      }
    }
  }

  /** Each challenge counts once, even if the random source repeats itself: no two verdicts of a
      device prove possession over the same challenge. */
  lemma EachChallengeOnce(H: Hash, d: Device, ops: seq<Operation>, i: nat, j: nat)
    requires i < j < |ops| && Proven(H, d, ops, i) && Proven(H, d, ops, j)
    ensures ops[i].p.challenge != ops[j].p.challenge
  {
    hide Decide, StateAfter;
    var s, t := StateAfter(H, d, ops[..i]), StateAfter(H, d, ops[..j]);
    AcceptedIff(H, d, s, ops[i].p, ops[i].q);
    AcceptedIff(H, d, t, ops[j].p, ops[j].q);
    TurnedAwayKeepsState(H, d, s, ops[i].p, ops[i].q);
    Next(H, d, ops, i);
    SpentStaysSpent(H, d, ops, i + 1, j, ops[i].p.challenge);
  }

  lemma {:induction false} OpenWasIssued(H: Hash, d: Device, ops: seq<Operation>, i: nat, c: Bytes)
    requires i <= |ops| && c in StateAfter(H, d, ops[..i]).open
    ensures |c| == 32 && exists k :: 0 <= k < i && ops[k] == Issue(c)
    decreases i
  {
    if i > 0 {
      Next(H, d, ops, i - 1);
      if ops[i - 1].Judge? {
        TurnedAwayKeepsState(H, d, StateAfter(H, d, ops[..i - 1]), ops[i - 1].p, ops[i - 1].q);
      }
      if c in StateAfter(H, d, ops[..i - 1]).open {
        OpenWasIssued(H, d, ops, i - 1, c);
      } else {
        assert ops[i - 1] == Issue(c);
      }
    }
  }

  /** And each is one this device issued earlier, answered for this device's own scope. */
  lemma ProvenWasIssued(H: Hash, d: Device, ops: seq<Operation>, i: nat)
    requires i < |ops| && Proven(H, d, ops, i)
    ensures ops[i].p.scope == d.scope
    ensures |ops[i].p.challenge| == 32 && exists k :: 0 <= k < i && ops[k] == Issue(ops[i].p.challenge)
  {
    hide Decide, StateAfter;
    AcceptedIff(H, d, StateAfter(H, d, ops[..i]), ops[i].p, ops[i].q);
    OpenWasIssued(H, d, ops, i, ops[i].p.challenge);
  }

  /** A decision raises exactly when it comes to sign-check a scope no body can carry; the refusal of
      a short challenge is never reached. */
  lemma RaisesIff(H: Hash, d: Device, ops: seq<Operation>, i: nat)
    requires i < |ops| && ops[i].Judge?
    ensures var s, p := StateAfter(H, d, ops[..i]), ops[i].p;
            && (VerdictAt(H, d, ops, i).Err? <==> TurnedAway(d, s, p) == None && |d.scope| > MAX_LEN)
            && VerdictAt(H, d, ops, i) != Err(ShortChallenge)
  {
    hide StateAfter, Authenticity;
    var s, p := StateAfter(H, d, ops[..i]), ops[i].p;
    if TurnedAway(d, s, p) == None { OpenWasIssued(H, d, ops, i, p.challenge); }
  }
}
