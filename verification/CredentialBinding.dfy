/** Whether an accepted presentation concerns one credential.  A device checks possession,
    authenticity and authorization each on its own; what ties the three together is how its caller
    makes the response verifier and chooses the status. */
module CredentialBinding {
  import opened ByteStrings
  import opened Utf8
  import opened CardProfile
  import opened CardIssuance
  import opened Presentation
  import opened CardMachine
  import opened CardRuns
  import opened VerifierDevice
  import opened DeviceTheorems
  import opened EndToEnd
  import opened CounterRuns
  import opened Personalization
  import opened PersonalizationRuns

  /** The reference of the credential a request's status is about. */
  function StatusReference(H: Hash, q: Request): Option<Bytes> {
    if q.assertion.Some? then Some(CredentialReference(H, q.assertion.value.tokenValue))
    else if q.online.Some? then
      Some(if q.online.value.tokenValue != [] then CredentialReference(H, q.online.value.tokenValue) else q.online.value.credentialRef)
    else None
  }

  /** The object the i-th recorded card holds. */
  function ObjectOf(w: System, i: nat): Option<Bytes>
    requires i < |w.serials| && w.serials[i] in w.cards
  {
    w.cards[w.serials[i]].state.cardObject
  }

  /** A request made from the object that is shown: the object's key checks the response, and the status is
      that of the credential the object refers to. */
  ghost predicate TiedTo(H: Hash, cardObject: Bytes, q: Request, s: Scheme) {
    && Decoding(cardObject).Ok?
    && Lookup(Decoding(cardObject).value, 8).Raw?
    && q.responseVerifier == Some(UnderKey(s, Lookup(Decoding(cardObject).value, 8).bytes))
    && StatusReference(H, q).Some?
    && Lookup(Decoding(cardObject).value, 2) == Raw(StatusReference(H, q).value)
  }

  /** The j-th recorded card, if it can sign. */
  predicate Signs(w: System, j: nat) {
    j < |w.serials| && w.serials[j] in w.cards && w.cards[w.serials[j]].cfg.signer.Some?
  }

  function SignedBy(w: System, j: nat, slot: Slot, body: Bytes): Bytes
    requires Signs(w, j)
  {
    SlotSign(w.cards[w.serials[j]].cfg.signer.value, slot, body)
  }

  /** What a slot of a recorded card signs checks under the normal key of a row exactly when the row is
      that card's and the slot is the normal one. */
  ghost predicate KeysIdentify(s: Scheme, w: System) {
    forall i: nat, j: nat, slot, body | i < |w.rows| && Signs(w, j) ::
      Checks(s, w.rows[i].normalKey, body, SignedBy(w, j, slot, body)) <==> i == j && slot == Normal
  }

  /** Under a request tied to the object, acceptance concerns one card and one credential.  Show the i-th
      recorded card's object with a response that some slot of the j-th card signed: it is accepted exactly
      when the two are one card, the slot is the normal one, the object is authentic and the credential is
      active; and the status is that of the credential the card was issued for, unless two references
      collide.  So whoever ties response and object together refuses what is signed under the duress
      PIN, because the object carries the normal key alone. */
  lemma TiedAcceptedIff(H: Hash, w: System, i: nat, j: nat, slot: Slot, d: Device, dev: DeviceState, p: Presented, q: Request, s: Scheme)
    requires Consistent(H, w) && i < |w.rows| && RowStands(H, w, i) && Signs(w, j) && KeysIdentify(s, w)
    requires p.cardObject == ObjectOf(w, i) && TiedTo(H, p.cardObject.value, q, s)
    requires p.challenge in dev.open && p.challenge !in dev.spent && p.challenge != [] && p.handle != [] && p.scope == d.scope != []
    requires ResponseBody(p.challenge, p.scope, p.handle).Ok?
    requires p.signature == SignedBy(w, j, slot, ResponseBody(p.challenge, p.scope, p.handle).value) != []
    ensures var v := Decide(H, d, dev, p, q).verdict;
            v.Ok? && v.value.accepted
            <==> && i == j && slot == Normal
                 && Authentic(H, p.cardObject.value, q.cardVerifier, None, d.requirePq, q.now)
                 && Active(d, q)
    ensures var credential := w.credentials[w.rows[i].tokenId];
            && StatusReference(H, q) == Some(CredentialReference(H, credential.tokenValue))
            && (q.assertion.Some? ==>
                  || q.assertion.value.tokenValue == credential.tokenValue
                  || Collides(H, {REFERENCE_PREFIX + q.assertion.value.tokenValue, REFERENCE_PREFIX + credential.tokenValue}))
  {
    hide Decide, Consistent, Decoding, Lookup, Authentic, Active, ResponseBody, CredentialReference, SignedBy;
    AcceptedIff(H, d, dev, p, q);
    var body := ResponseBody(p.challenge, p.scope, p.handle).value;
    assert Checks(s, w.rows[i].normalKey, body, SignedBy(w, j, slot, body)) <==> i == j && slot == Normal;
    if q.assertion.Some? { ReferenceBinds(H, q.assertion.value.tokenValue, w.credentials[w.rows[i].tokenId].tokenValue); }
  }

  /** A reference determines the token value. */
  lemma ReferenceBinds(H: Hash, t: Text, t': Text)
    requires CredentialReference(H, t) == CredentialReference(H, t')
    ensures t == t' || Collides(H, {REFERENCE_PREFIX + t, REFERENCE_PREFIX + t'})
  {
    hide IsUtf8, Collides;
    if !Collides(H, {REFERENCE_PREFIX + t, REFERENCE_PREFIX + t'}) {
      NoCollision(H, {REFERENCE_PREFIX + t, REFERENCE_PREFIX + t'}, REFERENCE_PREFIX + t, REFERENCE_PREFIX + t');
      DropPrefix(REFERENCE_PREFIX, t, t');
    }
  }

  /** Nothing in the device ties them.  Read one card under a right PIN and show another card's object with
      it: the device accepts exactly when it would take the response, the object and the status for
      themselves, whoever's they are. */
  lemma MixedPresentationAccepted(H: Hash, d: Device, dev: DeviceState, cfg: Config, t: CardState, pin: Text, c: Digest, q: Request,
                                  other: Bytes)
    requires pin == cfg.normal || pin == cfg.duress
    requires d.scope != [] && c !in dev.spent && ReadCard(H, d, cfg, t, pin, true, c).presented.Ok?
    ensures var slot := SlotOf(cfg, pin);
            var p := ReadCard(H, d, cfg, t, pin, true, c).presented.value;
            && SlotAnswers(H, cfg, slot, d.scope, c)
            && var v := Decide(H, d, dev.(open := dev.open + {c}), p.(cardObject := Some(other)), q).verdict;
               && v.Ok?
               && (v.value.accepted
                   <==> && q.responseVerifier.Some? && SlotSignature(H, cfg, slot, d.scope, c) != []
                        && Verifies(q.responseVerifier.value, SlotBody(H, cfg, slot, d.scope, c), SlotSignature(H, cfg, slot, d.scope, c))
                        && Authentic(H, other, q.cardVerifier, None, d.requirePq, q.now)
                        && Active(d, q))
  {
    hide ReadCard, Authentic, Active, Decide, PairwiseHandle, SlotSign, Verifies, SlotSecret;
    HonestRead(H, d, cfg, t, pin, true, c);
    var p := ReadCard(H, d, cfg, t, pin, true, c).presented.value.(cardObject := Some(other));
    AcceptedIff(H, d, dev.(open := dev.open + {c}), p, q);
    DecidesHonest(H, d, dev.(open := dev.open + {c}), p, q);
  }

  // ------------------------------------------------------------------
  // What is hashed for one purpose is hashed for no other
  // ------------------------------------------------------------------

  /** The bytes of an ASCII label. */
  predicate Labels(b: Bytes, text: string) {
    |b| == |text| && forall i :: 0 <= i < |b| ==> b[i] == text[i] as int
  }

  /** References, handles and response bodies carry labels of their own, and no string is two of them. */
  lemma DomainsSeparate(t: Text, s: Bytes, x: Text, c: Bytes, y: Text, h: Bytes)
    ensures Labels(REFERENCE_PREFIX, "polaris-card-ref/1") && Labels(HANDLE_PREFIX, "polaris-pairwise/1")
    ensures Labels(RESPONSE_PREFIX, "polaris-card-response/1") && Labels(DOC_TYPE, "id.polaris.card.1")
    ensures REFERENCE_PREFIX + t != HANDLE_PREFIX + s + x
    ensures ResponseBody(c, y, h).Ok? ==>
              ResponseBody(c, y, h).value != REFERENCE_PREFIX + t && ResponseBody(c, y, h).value != HANDLE_PREFIX + s + x
  {
    hide IsUtf8, Framed;
    var a, b := REFERENCE_PREFIX + t, HANDLE_PREFIX + s + x;
    assert a[8] == 0x63 && b[8] == 0x70 && a[15] == 0x66;
    if ResponseBody(c, y, h).Ok? {
      var r := ResponseBody(c, y, h).value;
      assert r[8] == 0x63 && r[15] == 0x73;
    }
  }
}
