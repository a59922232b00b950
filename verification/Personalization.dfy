/** Putting a credential onto a card.  The database is a table of credentials and an append-only
    list of rows; the date is passed in. */
module Personalization {
  import opened ByteStrings
  import opened Utf8
  import opened CardProfile
  import opened CardCodec
  import opened CardIssuance
  import opened CardBuilding
  import opened CardMachine
  import opened CardRuns
  import opened CardCounters
  import opened CardReader
  import opened SoftwareToken

  /** A credential; `expiration` is a day number. */
  datatype Credential = Credential(
    tokenValue: Text, status: string, agency: int, activationSequence: int, expiration: Option<int>)

  datatype Row = Row(
    tokenId: int, agency: int, credentialRef: Bytes, profileVersion: int,
    normalKey: Bytes, duressKey: Bytes, objectDigest: Bytes, operator: Option<int>)

  datatype Order = Order(
    tokenId: int, issuerSign: Signer, issuerVerify: Option<Verifier>, operator: Option<int>,
    expiresAt: Option<int>, issuedAt: Option<int>, signPq: Option<Signer>, keyPq: Option<Bytes>)

  datatype Refusal =
    | NoCredential | NotActive | Lapsed | HasCard | CardNotBlank | NoKeypair | SameKeys
    | BuildFailed(error: CardError) | NotAuthentic | ObjectTooLong | ObjectRefused

  datatype Recorded = Recorded(row: Row, cardObject: Bytes)

  const DEFAULT_ISSUED_AT := 1757000000
  const TEN_YEARS := 10 * 365 * 24 * 3600

  predicate HasRow(rows: seq<Row>, tokenId: int) {
    exists i :: 0 <= i < |rows| && rows[i].tokenId == tokenId
  }

  /** Why a credential is not personalized, before the card is looked at. */
  function CredentialRefusal(credentials: map<int, Credential>, rows: seq<Row>, tokenId: int, today: int): Option<Refusal> {
    if tokenId !in credentials then Some(NoCredential)
    else
      var c := credentials[tokenId];
      if c.status != "ACTIVE" then Some(NotActive)
      else if c.expiration.Some? && c.expiration.value < today then Some(Lapsed)
      else if HasRow(rows, tokenId) then Some(HasCard)
      else None
  }

  function SpecOf(c: Credential, o: Order, normalKey: Bytes): CardSpec {
    var issuedAt := if o.issuedAt.Some? then o.issuedAt.value else DEFAULT_ISSUED_AT;
    var expiresAt := if o.expiresAt.Some? then o.expiresAt.value else issuedAt + TEN_YEARS;
    CardSpec(c.tokenValue, c.agency, c.activationSequence, issuedAt, expiresAt, normalKey,
             if o.signPq.Some? then o.keyPq else None, None)
  }

  /** The post-quantum signer takes part only when its key does. */
  function PqSigner(o: Order): Option<Signer> {
    if o.keyPq.Some? then o.signPq else None
  }

  function RowOf(H: Hash, c: Credential, o: Order, keys: PublicKeys, blob: Bytes): Row {
    Row(o.tokenId, c.agency, CredentialReference(H, c.tokenValue), PROFILE_VERSION, keys.normal, keys.duress, Sum(H, blob), o.operator)
  }

  /** What a call leaves behind: the card, the rows, and the answer. */
  datatype Outcome = Outcome(card: CardState, rows: seq<Row>, answer: Result<Recorded, Refusal>)

  function PersonalizeOn(H: Hash, credentials: map<int, Credential>, rows: seq<Row>, cfg: Config, s: CardState, o: Order,
                         today: int): Outcome
  {
    var refusal := CredentialRefusal(credentials, rows, o.tokenId, today);
    if refusal.Some? then Outcome(s, rows, Err(refusal.value))
    else if s.life != Blank then Outcome(s, rows, Err(CardNotBlank))
    else
      var generated := Step(H, cfg, s, GENERATE_COMMAND);
      match ParseKeys(generated.response)
      case None => Outcome(generated.state, rows, Err(NoKeypair))
      case Some(keys) =>
        if keys.normal == keys.duress then Outcome(generated.state, rows, Err(SameKeys))
        else LoadOn(H, credentials[o.tokenId], rows, cfg, generated.state, o, keys)
  }

  function LoadOn(H: Hash, c: Credential, rows: seq<Row>, cfg: Config, s: CardState, o: Order, keys: PublicKeys): Outcome {
    match BuildCard(H, SpecOf(c, o, keys.normal), Some(o.issuerSign), PqSigner(o))
    case Err(e) => Outcome(s, rows, Err(BuildFailed(e)))
    case Ok(blob) =>
      if o.issuerVerify.Some? && !Authentic(H, blob, o.issuerVerify, None, false, None) then Outcome(s, rows, Err(NotAuthentic))
      else
        match PutCommand(blob)
        case Err(_) => Outcome(s, rows, Err(ObjectTooLong))
        case Ok(command) =>
          var loaded := Step(H, cfg, s, command);
          if !IsOk(loaded.response) then Outcome(loaded.state, rows, Err(ObjectRefused))
          else
            var row := RowOf(H, c, o, keys, blob);
            Outcome(loaded.state, rows + [row], Ok(Recorded(row, blob)))
  }

  class Registry {
    var credentials: map<int, Credential>
    var rows: seq<Row>

    constructor (credentials: map<int, Credential>)
      ensures this.credentials == credentials && rows == []
    {
      this.credentials := credentials;
      rows := [];
    }

    method Personalize(H: Hash, card: Token, o: Order, today: int) returns (r: Result<Recorded, Refusal>)
      modifies this`rows, card
      ensures Outcome(card.State(), rows, r) == PersonalizeOn(H, credentials, old(rows), card.cfg, old(card.State()), o, today)
    {
      hide Step, ParseKeys, BuildCard, Authentic, IsOk, PutCommand, HasRow;
      if o.tokenId !in credentials { return Err(NoCredential); }
      var c := credentials[o.tokenId];
      if c.status != "ACTIVE" { return Err(NotActive); }
      if c.expiration.Some? && c.expiration.value < today { return Err(Lapsed); }
      if HasRow(rows, o.tokenId) { return Err(HasCard); }

      if card.state != Blank { return Err(CardNotBlank); }
      var response := card.Transmit(H, GENERATE_COMMAND);
      var generated := ParseKeys(response);
      if generated == None { return Err(NoKeypair); }
      var keys := generated.value;
      if keys.normal == keys.duress { return Err(SameKeys); }

      var built := BuildCard(H, SpecOf(c, o, keys.normal), Some(o.issuerSign), PqSigner(o));
      if built.Err? { return Err(BuildFailed(built.error)); }
      var cardObject := built.value;
      if o.issuerVerify.Some? {
        var verdict := VerifyCard(H, cardObject, o.issuerVerify, None, false, None);
        if !verdict.authentic { return Err(NotAuthentic); }
      }
      var command := PutCommand(cardObject);
      if command.Err? { return Err(ObjectTooLong); }
      response := card.Transmit(H, command.value);
      if !IsOk(response) { return Err(ObjectRefused); }

      var row := RowOf(H, c, o, keys, cardObject);
      rows := rows + [row];
      r := Ok(Recorded(row, cardObject));
    }
  }

  // ------------------------------------------------------------------
  // One call
  // ------------------------------------------------------------------

  /** What the card answers to GENERATE KEYPAIR, as the flow reads it. */
  lemma GenerateReads(H: Hash, cfg: Config, s: CardState)
    ensures var e := Step(H, cfg, s, GENERATE_COMMAND);
            && (s.life == Blank && s.selected && !s.generated && cfg.generator.Some?
                && |Generated(cfg.generator.value, Normal)| <= 0xFF && |Generated(cfg.generator.value, Duress)| <= 0xFF
                ==> && e.state == s.(generated := true)
                    && ParseKeys(e.response) == Some(PublicKeys(Generated(cfg.generator.value, Normal), Generated(cfg.generator.value, Duress))))
            && (!(s.life == Blank && s.selected && !s.generated && cfg.generator.Some?
                  && |Generated(cfg.generator.value, Normal)| <= 0xFF && |Generated(cfg.generator.value, Duress)| <= 0xFF)
                ==> ParseKeys(e.response) == None)
  {
    hide Parse, SwBytes, IsOk, KeysPayload, Generated;
    FixedCommandsParse();
    OkStatus(SW_CONDITIONS_NOT_SATISFIED);
    OkStatus(SW_ALREADY_PERSONALIZED);
    OkStatus(SW_WRONG_DATA);
    if cfg.generator.Some? {
      var n, d := Generated(cfg.generator.value, Normal), Generated(cfg.generator.value, Duress);
      if |n| <= 0xFF && |d| <= 0xFF { KeysResponseParses(n, d); }
    }
    hide ParseKeys;
  }

  /** What the card answers to PUT CARD OBJECT. */
  lemma PutLoads(H: Hash, cfg: Config, s: CardState, blob: Bytes)
    requires |blob| <= MAX_LEN && s.selected
    ensures var e := Step(H, cfg, s, PutCommand(blob).value);
            && (IsOk(e.response) <==> s.life == Blank && Decoding(blob).Ok?)
            && (IsOk(e.response) ==> e.state == s.(cardObject := Some(blob), life := Personalized))
            && (!IsOk(e.response) ==> e.state == s)
  {
    hide Parse, SwBytes, IsOk, PutCommand, Decoding;
    PutCommandParses(blob);
    OkStatus(SW_OK);
    OkStatus(SW_ALREADY_PERSONALIZED);
    OkStatus(SW_WRONG_DATA);
  }

  /** A card that can take its keys now: selected, blank, and never asked before. */
  predicate CanGenerate(cfg: Config, s: CardState) {
    && s.life == Blank && s.selected && !s.generated && cfg.generator.Some?
    && |Generated(cfg.generator.value, Normal)| == CLASSICAL_KEY_LEN
    && |Generated(cfg.generator.value, Duress)| <= 0xFF
    && Generated(cfg.generator.value, Normal) != Generated(cfg.generator.value, Duress)
  }

  /** The object the call would load. */
  function ObjectFor(H: Hash, c: Credential, cfg: Config, o: Order): Result<Bytes, CardError>
    requires cfg.generator.Some?
  {
    BuildCard(H, SpecOf(c, o, Generated(cfg.generator.value, Normal)), Some(o.issuerSign), PqSigner(o))
  }

  /** The order can be carried out for this credential and this card: the numbers are in range, a
      post-quantum key has the profile's length, the whole object fits one command, and the issuer's own
      check, if there is one, takes its signature over the body's digest. */
  predicate CanBuild(H: Hash, spec: CardSpec, o: Order) {
    && SpecFits(spec)
    && (spec.keyPq.Some? ==> |spec.keyPq.value| == PQ_KEY_LEN)
    && BuiltSize(H, spec, Some(o.issuerSign), PqSigner(o)) <= MAX_LEN
    && PassesCheck(o.issuerVerify, Some(o.issuerSign), BuildDigest(H, spec))
  }

  /** A credential stands: it is ACTIVE, and its last day is not over. */
  predicate Stands(c: Credential, today: int) {
    c.status == "ACTIVE" && (c.expiration == None || today <= c.expiration.value)
  }

  lemma RefusedUnlessStands(credentials: map<int, Credential>, rows: seq<Row>, tokenId: int, today: int)
    ensures CredentialRefusal(credentials, rows, tokenId, today) == None
            <==> && tokenId in credentials && Stands(credentials[tokenId], today)
                 && forall i :: 0 <= i < |rows| ==> rows[i].tokenId != tokenId
  {
  }

  /** A call succeeds exactly when the credential is there and stands and has no row, the card can take its
      keys, and the order can be carried out.  The flow itself never selects the card: the caller must
      have. */
  lemma SucceedsIff(H: Hash, credentials: map<int, Credential>, rows: seq<Row>, cfg: Config, s: CardState, o: Order, today: int)
    ensures PersonalizeOn(H, credentials, rows, cfg, s, o, today).answer.Ok?
            <==> && o.tokenId in credentials && Stands(credentials[o.tokenId], today)
                 && (forall i :: 0 <= i < |rows| ==> rows[i].tokenId != o.tokenId)
                 && CanGenerate(cfg, s)
                 && CanBuild(H, SpecOf(credentials[o.tokenId], o, Generated(cfg.generator.value, Normal)), o)
  {
    hide Step, ParseKeys, BuildCard, Authentic, IsOk, PutCommand, HasRow, Generated, Decoding, CanBuild, SpecOf, PqSigner,
         CredentialRefusal, Stands;
    RefusedUnlessStands(credentials, rows, o.tokenId, today);
    GenerateReads(H, cfg, s);
    if CredentialRefusal(credentials, rows, o.tokenId, today) == None && s.life == Blank && cfg.generator.Some? {
      var spec := SpecOf(credentials[o.tokenId], o, Generated(cfg.generator.value, Normal));
      var built := ObjectFor(H, credentials[o.tokenId], cfg, o);
      SpecKey(credentials[o.tokenId], o, Generated(cfg.generator.value, Normal));
      LoadsIff(H, spec, o);
      if built.Ok? {
        PutFits(built.value);
        if |built.value| <= MAX_LEN && s.selected { PutLoads(H, cfg, s.(generated := true), built.value); }
      }
    }
  }

  lemma SpecKey(c: Credential, o: Order, normalKey: Bytes)
    ensures SpecOf(c, o, normalKey).keyClassical == normalKey
  {
  }

  /** An object is built that passes the issuer's check, fits, and is readable, exactly when it can be. */
  lemma LoadsIff(H: Hash, spec: CardSpec, o: Order)
    ensures var built := BuildCard(H, spec, Some(o.issuerSign), PqSigner(o));
            && built.Ok? && |built.value| <= MAX_LEN && Decoding(built.value).Ok?
            && (o.issuerVerify.Some? ==> Authentic(H, built.value, o.issuerVerify, None, false, None))
            <==> CanBuild(H, spec, o) && |spec.keyClassical| == CLASSICAL_KEY_LEN
  {
    hide BuildCard, Authentic, Decoding, SpecFits, BuildDigest, BodyFields, SignedFields, Verifies;
    var built := BuildCard(H, spec, Some(o.issuerSign), PqSigner(o));
    BuildsIff(H, spec, Some(o.issuerSign), PqSigner(o));
    if built.Ok? {
      BuiltCardReads(H, spec, Some(o.issuerSign), PqSigner(o));
      BuiltCardAuthentic(H, spec, Some(o.issuerSign), PqSigner(o), o.issuerVerify, None, false, None);
    }
  }

  lemma PutFits(blob: Bytes)
    ensures PutCommand(blob).Ok? <==> |blob| <= MAX_LEN
  {
  }

  /** What a successful call leaves: one new row, which describes the object the card now holds. */
  lemma SuccessRecords(H: Hash, credentials: map<int, Credential>, rows: seq<Row>, cfg: Config, s: CardState, o: Order, today: int)
    requires PersonalizeOn(H, credentials, rows, cfg, s, o, today).answer.Ok?
    ensures var out := PersonalizeOn(H, credentials, rows, cfg, s, o, today);
            var row, blob := out.answer.value.row, out.answer.value.cardObject;
            && o.tokenId in credentials && !HasRow(rows, o.tokenId) && s.life == Blank
            && out.rows == rows + [row]
            && row.tokenId == o.tokenId && row.operator == o.operator
            && Stands(credentials[o.tokenId], today)
            && out.card == s.(generated := true, cardObject := Some(blob), life := Personalized)
            && Describes(H, row, blob, cfg, credentials[o.tokenId])
  {
    hide Step, ParseKeys, BuildCard, Authentic, IsOk, PutCommand, HasRow, Generated, Decoding, Describes, RowOf, Lookup;
    SucceedsIff(H, credentials, rows, cfg, s, o, today);
    GenerateReads(H, cfg, s);
    var c := credentials[o.tokenId];
    var built := ObjectFor(H, c, cfg, o);
    BuiltCardReads(H, SpecOf(c, o, Generated(cfg.generator.value, Normal)), Some(o.issuerSign), PqSigner(o));
    PutFits(built.value);
    PutLoads(H, cfg, s.(generated := true), built.value);
    RowDescribes(H, c, cfg, o);
  }

  lemma RowDescribes(H: Hash, c: Credential, cfg: Config, o: Order)
    requires cfg.generator.Some? && ObjectFor(H, c, cfg, o).Ok?
    requires Decoding(ObjectFor(H, c, cfg, o).value).Ok?
    requires Generated(cfg.generator.value, Normal) != Generated(cfg.generator.value, Duress)
    ensures var blob := ObjectFor(H, c, cfg, o).value;
            var keys := PublicKeys(Generated(cfg.generator.value, Normal), Generated(cfg.generator.value, Duress));
            && Describes(H, RowOf(H, c, o, keys, blob), blob, cfg, c)
            && RowOf(H, c, o, keys, blob).tokenId == o.tokenId && RowOf(H, c, o, keys, blob).operator == o.operator
  {
    hide Encoding, BodyFields, SignedFields, Lookup, CredentialReference, SigningDigest, Decoding, Generated;
    var spec := SpecOf(c, o, Generated(cfg.generator.value, Normal));
    BuiltCardReads(H, spec, Some(o.issuerSign), PqSigner(o));
    FieldsOfABuild(H, spec, Some(o.issuerSign), PqSigner(o), SigningDigest(H, BodyFields(H, spec)).value);
  }

  /** A row is about an object: its digest, its normal key, the credential's reference, agency and sequence;
      and the two slot keys are the card's own and differ. */
  ghost predicate Describes(H: Hash, row: Row, blob: Bytes, cfg: Config, c: Credential) {
    && row.objectDigest == Sum(H, blob)
    && Decoding(blob).Ok?
    && Lookup(Decoding(blob).value, 8) == Raw(row.normalKey)
    && Lookup(Decoding(blob).value, 2) == Raw(row.credentialRef)
    && row.credentialRef == CredentialReference(H, c.tokenValue)
    && row.agency == c.agency && row.profileVersion == 1
    && Lookup(Decoding(blob).value, 3) == Num(c.agency) && Lookup(Decoding(blob).value, 4) == Num(c.activationSequence)
    && row.normalKey != row.duressKey
    && cfg.generator.Some?
    && row.normalKey == Generated(cfg.generator.value, Normal)
    && row.duressKey == Generated(cfg.generator.value, Duress)
  }

  /** A card personalized under an issuer that checks its own work is authentic to every reader with that
      issuer's verifier, until its expiry and not from it on. */
  lemma AuthenticUntilExpiry(H: Hash, credentials: map<int, Credential>, rows: seq<Row>, cfg: Config, s: CardState, o: Order,
                             today: int, now: int)
    requires PersonalizeOn(H, credentials, rows, cfg, s, o, today).answer.Ok? && o.issuerVerify.Some?
    ensures var recorded := PersonalizeOn(H, credentials, rows, cfg, s, o, today).answer.value;
            Authentic(H, recorded.cardObject, o.issuerVerify, None, false, Some(now)) <==> now < ExpiryOf(o)
  {
    SuccessRecords(H, credentials, rows, cfg, s, o, today);
    SucceedsIff(H, credentials, rows, cfg, s, o, today);
    LoadedObject(H, credentials, rows, cfg, s, o, today);
    hide PersonalizeOn, Authentic, BuildCard, SpecFits, BuildDigest, Generated, CredentialRefusal, SpecOf, PqSigner, IssueOf, ExpiryOf;
    SpecIs(credentials[o.tokenId], o, Generated(cfg.generator.value, Normal));
    var spec := SpecOf(credentials[o.tokenId], o, Generated(cfg.generator.value, Normal));
    BuiltCardAuthentic(H, spec, Some(o.issuerSign), PqSigner(o), o.issuerVerify, None, false, Some(now));
  }

  /** When an object is taken to be issued, and when it expires: as ordered, or ten years later. */
  function IssueOf(o: Order): int {
    if o.issuedAt.Some? then o.issuedAt.value else 1757000000
  }

  function ExpiryOf(o: Order): int {
    if o.expiresAt.Some? then o.expiresAt.value else IssueOf(o) + 315360000
  }

  /** What the order makes of a credential and a key. */
  lemma SpecIs(c: Credential, o: Order, key: Bytes)
    ensures var both := o.signPq.Some? && o.keyPq.Some?;
            && SpecOf(c, o, key) == CardSpec(c.tokenValue, c.agency, c.activationSequence, IssueOf(o), ExpiryOf(o), key,
                                             if both then o.keyPq else None, None)
            && PqSigner(o) == if both then o.signPq else None
  {
  }

  /** The object of a successful call carries what the credential and the order say, signed by the issuer
      over its body; and a second key and a second signature exactly when both were ordered. */
  lemma ObjectRecorded(H: Hash, credentials: map<int, Credential>, rows: seq<Row>, cfg: Config, s: CardState, o: Order, today: int)
    requires PersonalizeOn(H, credentials, rows, cfg, s, o, today).answer.Ok?
    ensures var blob := PersonalizeOn(H, credentials, rows, cfg, s, o, today).answer.value.cardObject;
            && Decoding(blob).Ok?
            && var f, d, both := Decoding(blob).value, DigestOf(H, blob), o.signPq.Some? && o.keyPq.Some?;
               && Lookup(f, 5) == Null && Lookup(f, 6) == Num(IssueOf(o)) && Lookup(f, 7) == Num(ExpiryOf(o))
               && Lookup(f, 9) == (if both then Raw(o.keyPq.value) else Null)
               && Lookup(f, 10) == Raw(Sign(o.issuerSign, d))
               && Lookup(f, 11) == (if both then Raw(Sign(o.signPq.value, d)) else Null)
  {
    LoadedObject(H, credentials, rows, cfg, s, o, today);
    SucceedsIff(H, credentials, rows, cfg, s, o, today);
    hide PersonalizeOn, BuildCard, BodyFields, SignedFields, BodyOnly, Lookup, Decoding, Generated, SpecFits, BuiltSize, SpecOf, PqSigner,
         IssueOf, ExpiryOf;
    SpecIs(credentials[o.tokenId], o, Generated(cfg.generator.value, Normal));
    var spec := SpecOf(credentials[o.tokenId], o, Generated(cfg.generator.value, Normal));
    BuiltCardReads(H, spec, Some(o.issuerSign), PqSigner(o));
    FieldsOfABuild(H, spec, Some(o.issuerSign), PqSigner(o), SigningDigest(H, BodyFields(H, spec)).value);
  }

  lemma LoadedObject(H: Hash, credentials: map<int, Credential>, rows: seq<Row>, cfg: Config, s: CardState, o: Order, today: int)
    requires PersonalizeOn(H, credentials, rows, cfg, s, o, today).answer.Ok?
    ensures o.tokenId in credentials && cfg.generator.Some?
    ensures var recorded := PersonalizeOn(H, credentials, rows, cfg, s, o, today).answer.value;
            && Ok(recorded.cardObject) == ObjectFor(H, credentials[o.tokenId], cfg, o)
            && recorded.row.normalKey == Generated(cfg.generator.value, Normal)
            && Decoding(recorded.cardObject).Ok?
  {
    hide Step, ParseKeys, BuildCard, Authentic, IsOk, PutCommand, HasRow, Generated, Decoding;
    SucceedsIff(H, credentials, rows, cfg, s, o, today);
    SuccessRecords(H, credentials, rows, cfg, s, o, today);
    GenerateReads(H, cfg, s);
  }

  /** A refused call adds no row and loads no object. */
  lemma RefusalAddsNothing(H: Hash, credentials: map<int, Credential>, rows: seq<Row>, cfg: Config, s: CardState, o: Order, today: int)
    requires Sound(s) && PersonalizeOn(H, credentials, rows, cfg, s, o, today).answer.Err?
    ensures var out := PersonalizeOn(H, credentials, rows, cfg, s, o, today);
            && out.rows == rows && out.card.cardObject == s.cardObject && Sound(out.card)
  {
    hide ParseKeys, BuildCard, Authentic, IsOk, Generated, Decoding, Step, PutCommand, Sound;
    GenerateKeepsObject(H, cfg, s);
    var t := Step(H, cfg, s, GENERATE_COMMAND).state;
    forall blob, command | PutCommand(blob) == Ok(command)
      ensures !IsOk(Step(H, cfg, t, command).response) ==> Step(H, cfg, t, command).state == t
    {
      PutFits(blob);
      RefusedPut(H, cfg, t, blob);
    }
  }

  /** What the card can answer to the request for keys: both, of at most 255 bytes each. */
  predicate AnswersKeys(cfg: Config, s: CardState) {
    && s.selected && !s.generated && cfg.generator.Some?
    && |Generated(cfg.generator.value, Normal)| <= 0xFF && |Generated(cfg.generator.value, Duress)| <= 0xFF
  }

  /** A call names the first thing that stands in its way; and the card has been touched only if it was
      asked for keys. */
  lemma RefusalNamesFirst(H: Hash, credentials: map<int, Credential>, rows: seq<Row>, cfg: Config, s: CardState, o: Order, today: int)
    ensures var out := PersonalizeOn(H, credentials, rows, cfg, s, o, today);
            && (o.tokenId !in credentials ==> out == Outcome(s, rows, Err(NoCredential)))
            && (o.tokenId in credentials ==>
                  var c := credentials[o.tokenId];
                  && (c.status != "ACTIVE" ==> out == Outcome(s, rows, Err(NotActive)))
                  && (c.status == "ACTIVE" && !Stands(c, today) ==> out == Outcome(s, rows, Err(Lapsed)))
                  && (Stands(c, today) && (exists i :: 0 <= i < |rows| && rows[i].tokenId == o.tokenId) ==>
                        out == Outcome(s, rows, Err(HasCard)))
                  && (Stands(c, today) && (forall i :: 0 <= i < |rows| ==> rows[i].tokenId != o.tokenId) ==>
                        && (s.life != Blank ==> out == Outcome(s, rows, Err(CardNotBlank)))
                        && (s.life == Blank && !AnswersKeys(cfg, s) ==> out.answer == Err(NoKeypair) && out.rows == rows)
                        && (s.life == Blank && AnswersKeys(cfg, s) ==>
                              if Generated(cfg.generator.value, Normal) == Generated(cfg.generator.value, Duress)
                              then out == Outcome(s.(generated := true), rows, Err(SameKeys))
                              else out == Loading(H, c, rows, cfg, s.(generated := true), o))))
  {
    hide Step, ParseKeys, LoadOn, Generated;
    GenerateReads(H, cfg, s);
  }

  /** What becomes of the order once the keys are there. */
  function Loading(H: Hash, c: Credential, rows: seq<Row>, cfg: Config, s: CardState, o: Order): Outcome
    requires cfg.generator.Some?
  {
    LoadOn(H, c, rows, cfg, s, o, PublicKeys(Generated(cfg.generator.value, Normal), Generated(cfg.generator.value, Duress)))
  }

  /** And with the keys there: what cannot be built, then what the issuer's own check refuses, then what does
      not fit, then what the card does not take, because a key has not the profile's length. */
  lemma LoadingNamesFirst(H: Hash, c: Credential, rows: seq<Row>, cfg: Config, s: CardState, o: Order)
    requires s.life == Blank && s.selected && cfg.generator.Some?
    ensures var out, spec := Loading(H, c, rows, cfg, s, o), SpecOf(c, o, Generated(cfg.generator.value, Normal));
            var digest := BuildDigest(H, spec);
            var builds := SpecFits(spec) && SignatureFits(Some(o.issuerSign), digest) && SignatureFits(PqSigner(o), digest);
            var passes := o.issuerVerify.Some? ==> KeysFit(spec) && PassesCheck(o.issuerVerify, Some(o.issuerSign), digest);
            var fits := BuiltSize(H, spec, Some(o.issuerSign), PqSigner(o)) <= 0xFFFF;
            && (!builds ==> out.answer.Err? && out.answer.error.BuildFailed? && out.card == s)
            && (builds && !passes ==> out == Outcome(s, rows, Err(NotAuthentic)))
            && (builds && passes && !fits ==> out == Outcome(s, rows, Err(ObjectTooLong)))
            && (builds && passes && fits && !KeysFit(spec) ==> out == Outcome(s, rows, Err(ObjectRefused)))
            && (builds && passes && fits && KeysFit(spec) ==> out.answer.Ok?)
  {
    hide Step, BuildCard, Authentic, IsOk, PutCommand, Generated, Decoding, SpecFits, SignatureFits, BuildDigest, BuiltSize, SpecOf,
         KeysFit, Verifies, BodyFields, SignedFields;
    var spec := SpecOf(c, o, Generated(cfg.generator.value, Normal));
    var built := BuildCard(H, spec, Some(o.issuerSign), PqSigner(o));
    BuildsIff(H, spec, Some(o.issuerSign), PqSigner(o));
    if built.Ok? {
      BuiltCardReads(H, spec, Some(o.issuerSign), PqSigner(o));
      BuiltCardAuthentic(H, spec, Some(o.issuerSign), PqSigner(o), o.issuerVerify, None, false, None);
      PutFits(built.value);
      if |built.value| <= MAX_LEN { PutLoads(H, cfg, s, built.value); }
    }
  }

  lemma GenerateKeepsObject(H: Hash, cfg: Config, s: CardState)
    requires Sound(s)
    ensures Sound(Step(H, cfg, s, GENERATE_COMMAND).state)
    ensures Step(H, cfg, s, GENERATE_COMMAND).state.cardObject == s.cardObject
  {
    hide Parse, SwBytes, Generated, KeysPayload, Decoding;
    FixedCommandsParse();
  }

  lemma RefusedPut(H: Hash, cfg: Config, s: CardState, blob: Bytes)
    requires |blob| <= MAX_LEN
    ensures !IsOk(Step(H, cfg, s, PutCommand(blob).value).response) ==> Step(H, cfg, s, PutCommand(blob).value).state == s
  {
    hide Parse, PutCommand, SwBytes, IsOk, Decoding;
    PutCommandParses(blob);
    OkStatus(SW_OK);
  }

  /** A card that has generated its keys is never personalized by a later call, whatever happens to
      it in between: a call that fails after that point has used the card up. */
  lemma GeneratedCardIsUsedUp(H: Hash, credentials: map<int, Credential>, rows: seq<Row>, cfg: Config, s: CardState,
                              events: seq<Event>, o: Order, today: int)
    requires Sound(s) && s.generated
    ensures PersonalizeOn(H, credentials, rows, cfg, Run(H, cfg, s, events), o, today).answer.Err?
  {
    hide PersonalizeOn, Run;
    ObjectIsForGood(H, cfg, s, events);
    SucceedsIff(H, credentials, rows, cfg, Run(H, cfg, s, events), o, today);
  }
}
