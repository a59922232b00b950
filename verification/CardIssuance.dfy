/** Building a card object and deciding one offline.  Signers and verifiers are arbitrary
    functions; the issuer signs the digest of the object without its signatures. */
module CardIssuance {
  import opened ByteStrings
  import opened Utf8
  import opened CardProfile
  import opened CardCodec

  datatype Signer = Signer(f: Bytes -> Bytes)

  datatype Verifier = Verifier(f: (Bytes, Bytes) -> bool)

  function Sign(s: Signer, digest: Bytes): Bytes {
    s.f(digest)
  }

  predicate Verifies(v: Verifier, digest: Bytes, signature: Bytes) {
    v.f(digest, signature)
  }

  // "polaris-card-ref/1"
  const REFERENCE_PREFIX: Bytes := [
      0x70, 0x6F, 0x6C, 0x61, 0x72, 0x69, 0x73, 0x2D, 0x63, 0x61, 0x72, 0x64,
      0x2D, 0x72, 0x65, 0x66, 0x2F, 0x31]

  function CredentialReference(H: Hash, tokenValue: Text): Digest {
    Sum(H, REFERENCE_PREFIX + tokenValue)
  }

  /** The fields under the issuer's signatures. */
  function BodyOnly(f: Fields): Fields {
    map n | n in f && NameIndex(n) < SIGNED :: f[n]
  }

  function SigningBody(f: Fields): Result<Bytes, CardError> {
    Encoding(BodyOnly(f))
  }

  function SigningDigest(H: Hash, f: Fields): Result<Bytes, CardError> {
    match SigningBody(f)
    case Err(e) => Err(e)
    case Ok(body) => Ok(Sum(H, body))
  }

  // ------------------------------------------------------------------
  // Building
  // ------------------------------------------------------------------

  datatype CardSpec = CardSpec(
    tokenValue: Text, issuingAuthority: int, activationSequence: int, issuedAt: int, expiresAt: int,
    keyClassical: Bytes, keyPq: Option<Bytes>, predecessor: Option<Text>)

  function With(f: Fields, n: Name, v: Option<Bytes>): Fields {
    if v.Some? then f[n := Raw(v.value)] else f
  }

  function RequiredFields(H: Hash, c: CardSpec): Fields {
    KeyFields(c, IdentityFields(H, c))
  }

  function IdentityFields(H: Hash, c: CardSpec): Fields {
    map[ProfileVersion := Num(PROFILE_VERSION), DocType := Raw(DOC_TYPE),
        CredentialRef := Raw(CredentialReference(H, c.tokenValue)), IssuingAuthority := Num(c.issuingAuthority)]
  }

  function KeyFields(c: CardSpec, f: Fields): Fields {
    f[ActivationSequence := Num(c.activationSequence)][IssuedAt := Num(c.issuedAt)][ExpiresAt := Num(c.expiresAt)]
     [CardKeyClassical := Raw(c.keyClassical)]
  }

  function BodyFields(H: Hash, c: CardSpec): Fields {
    With(With(RequiredFields(H, c), CardKeyPq, c.keyPq), PredecessorRef,
         if c.predecessor.Some? then Some(CredentialReference(H, c.predecessor.value)) else None)
  }

  function SignedWith(s: Option<Signer>, digest: Bytes): Option<Bytes> {
    if s.Some? then Some(Sign(s.value, digest)) else None
  }

  function SignedFields(f: Fields, classical: Option<Signer>, pq: Option<Signer>, digest: Bytes): Fields {
    With(With(f, IssuerSigClassical, SignedWith(classical, digest)), IssuerSigPq, SignedWith(pq, digest))
  }

  function BuildCard(H: Hash, c: CardSpec, classical: Option<Signer>, pq: Option<Signer>): Result<Bytes, CardError> {
    var f := BodyFields(H, c);
    if classical == None && pq == None then Err(NoSigner)
    else
      match SigningDigest(H, f)
      case Err(e) => Err(e)
      case Ok(digest) => Encoding(SignedFields(f, classical, pq, digest))
  }

  // ------------------------------------------------------------------
  // Deciding
  // ------------------------------------------------------------------

  datatype CardNote = Malformed(error: CardError) | NoSignature | PqRequired | NothingChecked | SignatureFailed | Expired

  datatype CardVerdict = CardVerdict(
    parsed: bool, classical: Option<bool>, postQuantum: Option<bool>, agree: bool,
    unexpired: Option<bool>, authentic: bool, note: Option<CardNote>, fields: Option<Fields>)

  /** What one signature field says: nothing when it is absent or no verifier was supplied. */
  function Checked(v: Option<Verifier>, digest: Bytes, signature: Value): Option<bool> {
    if v.Some? && signature.Raw? then Some(Verifies(v.value, digest, signature.bytes)) else None
  }

  /** The digest a reader recomputes; a decoded object always has one. */
  function DigestOf(H: Hash, blob: Bytes): Digest
    requires Decoding(blob).Ok?
  {
    DecodedReencodes(blob);
    BodyIsPrefix(Decoding(blob).value);
    SigningDigest(H, Decoding(blob).value).value
  }

  /** The expiry of an object; a decoded one always carries it. */
  function Expiry(f: Fields): int {
    if Lookup(f, 7).Num? then Lookup(f, 7).n else 0
  }

  /** The conditions under which a reader takes a card object to be its issuer's. */
  predicate Authentic(H: Hash, blob: Bytes, classical: Option<Verifier>, pq: Option<Verifier>, requirePq: bool,
                      now: Option<int>)
  {
    && Decoding(blob).Ok?
    && var f, digest := Decoding(blob).value, DigestOf(H, blob);
       var c, p := Checked(classical, digest, Lookup(f, 10)), Checked(pq, digest, Lookup(f, 11));
       && (c.Some? || p.Some?)
       && c != Some(false) && p != Some(false)
       && (requirePq ==> Lookup(f, 11).Raw?)
       && (now.Some? ==> now.value < Expiry(f))
  }

  /** The staged decision.  A verdict without a note is exactly an authentic one. */
  method VerifyCard(H: Hash, blob: Bytes, classical: Option<Verifier>, pq: Option<Verifier>, requirePq: bool,
                    now: Option<int>) returns (v: CardVerdict)
    ensures v.authentic == Authentic(H, blob, classical, pq, requirePq, now)
    ensures v.authentic <==> v.note == None
    ensures v.parsed == Decoding(blob).Ok? && (!v.parsed ==> v.note == Some(Malformed(Decoding(blob).error)))
    ensures v.fields == if v.parsed then Some(BodyOnly(Decoding(blob).value)) else None
    ensures v.parsed ==>
              var f, digest := Decoding(blob).value, DigestOf(H, blob);
              && v.classical == Checked(classical, digest, Lookup(f, 10))
              && v.postQuantum == Checked(pq, digest, Lookup(f, 11))
              && (v.agree <==> && (v.classical.Some? || v.postQuantum.Some?)
                               && v.classical != Some(false) && v.postQuantum != Some(false)
                               && (requirePq ==> Lookup(f, 11).Raw?))
              && (v.unexpired == if v.agree && now.Some? then Some(now.value < Expiry(f)) else None)
              && v.note == (if !Lookup(f, 10).Raw? && !Lookup(f, 11).Raw? then Some(NoSignature)
                            else if requirePq && !Lookup(f, 11).Raw? then Some(PqRequired)
                            else if v.classical == None && v.postQuantum == None then Some(NothingChecked)
                            else if !v.agree then Some(SignatureFailed)
                            else if v.unexpired == Some(false) then Some(Expired)
                            else None)
    ensures !v.parsed ==> v.classical == None && v.postQuantum == None && !v.agree && v.unexpired == None
  {
    hide Decoding, Encoding, SigningBody, BodyOnly, NameAt, NameIndex, Lookup, Expiry, Verifies;
    v := CardVerdict(false, None, None, false, None, false, None, None);
    var decoded := Decode(blob);
    if decoded.Err? {
      return v.(note := Some(Malformed(decoded.error)));
    }
    var f := decoded.value;
    DecodedFieldKinds(blob);
    v := v.(parsed := true, fields := Some(BodyOnly(f)));
    var digest := DigestOf(H, blob);
    var hasClassical, hasPq := IssuerSigClassical in f, IssuerSigPq in f;
    if !hasClassical && !hasPq {
      return v.(note := Some(NoSignature));
    }
    if hasClassical && classical.Some? {
      v := v.(classical := Some(Verifies(classical.value, digest, f[IssuerSigClassical].bytes)));
    }
    if hasPq && pq.Some? {
      v := v.(postQuantum := Some(Verifies(pq.value, digest, f[IssuerSigPq].bytes)));
    }
    if requirePq && !hasPq {
      return v.(note := Some(PqRequired));
    }
    if v.classical == None && v.postQuantum == None {
      return v.(note := Some(NothingChecked));
    }
    if v.classical == Some(false) || v.postQuantum == Some(false) {
      return v.(note := Some(SignatureFailed));
    }
    v := v.(agree := true);
    if now.Some? {
      v := v.(unexpired := Some(now.value < f[ExpiresAt].n));
      if v.unexpired == Some(false) {
        return v.(note := Some(Expired));
      }
    }
    v := v.(authentic := true);
  }

  lemma DecodedFieldKinds(blob: Bytes)
    requires Decoding(blob).Ok?
    ensures var f := Decoding(blob).value;
            && ExpiresAt in f && f[ExpiresAt].Num?
            && (IssuerSigClassical in f ==> f[IssuerSigClassical].Raw?)
            && (IssuerSigPq in f ==> f[IssuerSigPq].Raw?)
            && Lookup(f, 7) == f[ExpiresAt] && Expiry(f) == f[ExpiresAt].n
            && Lookup(f, 10) == (if IssuerSigClassical in f then f[IssuerSigClassical] else Null)
            && Lookup(f, 11) == (if IssuerSigPq in f then f[IssuerSigPq] else Null)
  {
    hide Encoding, DecodeFrom, IsUtf8;
    DecodedReencodes(blob);
    var f := Decoding(blob).value;
    assert Present(f, 7);
    assert NameAt(7) == ExpiresAt && NameAt(10) == IssuerSigClassical && NameAt(11) == IssuerSigPq;
  }

  // ------------------------------------------------------------------
  // Signatures do not cover themselves
  // ------------------------------------------------------------------

  /** An encoded object is its signing body followed by the encoded signatures. */
  lemma BodyIsPrefix(f: Fields)
    requires Encoding(f).Ok?
    ensures SigningBody(f).Ok? && EncodeFrom(SIGNED, f).Ok?
    ensures Encoding(f).value == SigningBody(f).value + EncodeFrom(SIGNED, f).value
  {
    hide EncodeFrom;
    assert forall k: nat :: k < SIGNED ==> (Present(f, k) <==> Present(BodyOnly(f), k));
    BodySplits(f, 0);
  }

  lemma {:induction false} BodySplits(f: Fields, j: nat)
    requires j <= SIGNED
    requires EncodeFrom(j, f).Ok?
    ensures EncodeFrom(SIGNED, f).Ok? && EncodeFrom(j, BodyOnly(f)).Ok?
    ensures EncodeFrom(j, f).value == EncodeFrom(j, BodyOnly(f)).value + EncodeFrom(SIGNED, f).value
    decreases SIGNED - j
  {
    hide EncodeFrom, EncodeField, EncodeValue, Tlv;
    if j == SIGNED {
      SkipAbsent(BodyOnly(f), SIGNED, VOCABULARY);
      EncodeFromUnfolds(0, BodyOnly(f));
      AppendNothing(EncodeFrom(SIGNED, f));
    } else {
      EncodeFromUnfolds(j, f);
      EncodeFromUnfolds(j, BodyOnly(f));
      SameField(j, f);
      BodySplits(f, j + 1);
      AppendAssociates(EncodeField(j, f), EncodeFrom(j + 1, BodyOnly(f)), EncodeFrom(SIGNED, f));
    }
  }

  lemma SameField(j: nat, f: Fields)
    requires j < SIGNED
    ensures EncodeField(j, BodyOnly(f)) == EncodeField(j, f)
  {
  }

  /** The signing body is itself an object a reader decodes, with no signature in it. */
  lemma BodyDecodesAlone(f: Fields)
    requires Admissible(f)
    ensures SigningBody(f).Ok? && Decoding(SigningBody(f).value) == Ok(BodyOnly(f))
  {
    hide WellFormed, Encoding, Decoding;
    assert forall k: nat :: k < SIGNED ==> (Present(f, k) <==> Present(BodyOnly(f), k));
    AdmissibleSurvives(BodyOnly(f));
  }

  /** A signature cannot be moved: two readable objects with one signing digest carry the same signed
      fields, unless their two bodies collide. */
  lemma SignatureCannotMove(H: Hash, a: Bytes, b: Bytes)
    requires Decoding(a).Ok? && Decoding(b).Ok? && DigestOf(H, a) == DigestOf(H, b)
    ensures var f, g := Decoding(a).value, Decoding(b).value;
            && SigningBody(f).Ok? && SigningBody(g).Ok?
            && (BodyOnly(f) == BodyOnly(g) || Collides(H, {SigningBody(f).value, SigningBody(g).value}))
  {
    hide Decoding, Encoding, BodyOnly, WellFormed;
    DecodedReencodes(a);
    DecodedReencodes(b);
    var f, g := Decoding(a).value, Decoding(b).value;
    BodyDecodesAlone(f);
    BodyDecodesAlone(g);
    if !Collides(H, {SigningBody(f).value, SigningBody(g).value}) {
      NoCollision(H, {SigningBody(f).value, SigningBody(g).value}, SigningBody(f).value, SigningBody(g).value);
    }
  }

  // ------------------------------------------------------------------
  // A built object says what its signers signed
  // ------------------------------------------------------------------

  lemma {:induction false} EncodedFieldFits(f: Fields, j: nat, k: nat)
    requires j <= k < VOCABULARY && EncodeFrom(j, f).Ok? && Present(f, k)
    ensures var e := EncodeValue(k, f[NameAt(k)]); e.Ok? && |e.value| <= MAX_LEN
    decreases k - j
  {
    hide EncodeValue, Tlv, Present, NameAt;
    EncodeFromUnfolds(j, f);
    if j < k { EncodedFieldFits(f, j + 1, k); }
  }

  ghost predicate AllBody(f: Fields) {
    forall n :: n in f ==> NameIndex(n) < SIGNED && f[n] != Null
  }

  lemma BodyFieldsAreBody(H: Hash, c: CardSpec)
    ensures AllBody(BodyFields(H, c)) && BodyOnly(BodyFields(H, c)) == BodyFields(H, c)
  {
    RequiredFieldsAreBody(H, c);
    hide RequiredFields, CredentialReference;
  }

  lemma RequiredFieldsAreBody(H: Hash, c: CardSpec)
    ensures AllBody(RequiredFields(H, c))
  {
    IdentityFieldsAreBody(H, c);
    hide IdentityFields;
  }

  lemma IdentityFieldsAreBody(H: Hash, c: CardSpec)
    ensures AllBody(IdentityFields(H, c))
  {
    hide CredentialReference, IsUtf8, NameAt;
  }

  lemma SigningKeepsBody(f: Fields, classical: Option<Signer>, pq: Option<Signer>, digest: Bytes)
    requires AllBody(f)
    ensures var g := SignedFields(f, classical, pq, digest);
            && (forall n :: n in g ==> !n.Other? && g[n] != Null)
            && BodyOnly(g) == f
            && (forall k: nat :: k < SIGNED ==> Lookup(g, k) == Lookup(f, k))
            && Lookup(g, 10) == (if classical.Some? then Raw(Sign(classical.value, digest)) else Null)
            && Lookup(g, 11) == (if pq.Some? then Raw(Sign(pq.value, digest)) else Null)
  {
    hide Lookup, NameAt, NameIndex, Sign;
    SignatureNames();
    var c, p := SignedWith(classical, digest), SignedWith(pq, digest);
    WithLookup(f, IssuerSigClassical, c);
    WithLookup(With(f, IssuerSigClassical, c), IssuerSigPq, p);
    WithKeepsBody(f, IssuerSigClassical, c);
    WithKeepsBody(With(f, IssuerSigClassical, c), IssuerSigPq, p);
    NotInBody(f);
    hide With, BodyOnly;
  }

  lemma SignatureNames()
    ensures NameIndex(IssuerSigClassical) == 10 && NameIndex(IssuerSigPq) == 11
    ensures NameAt(10) == IssuerSigClassical && NameAt(11) == IssuerSigPq
  {
  }

  lemma NotInBody(f: Fields)
    requires AllBody(f)
    ensures BodyOnly(f) == f && (forall n :: n in f ==> !n.Other? && f[n] != Null)
    ensures Lookup(f, 10) == Null && Lookup(f, 11) == Null
  {
  }

  lemma WithKeepsBody(f: Fields, n: Name, v: Option<Bytes>)
    requires !n.Other? && NameIndex(n) >= SIGNED && forall m :: m in f ==> !m.Other? && f[m] != Null
    ensures BodyOnly(With(f, n, v)) == BodyOnly(f)
    ensures forall m :: m in With(f, n, v) ==> !m.Other? && With(f, n, v)[m] != Null
  {
    hide NameIndex;
  }

  lemma WithLookup(f: Fields, n: Name, v: Option<Bytes>)
    requires !n.Other?
    ensures forall k: nat :: k < VOCABULARY ==>
              Lookup(With(f, n, v), k) == if k == NameIndex(n) && v.Some? then Raw(v.value) else Lookup(f, k)
  {
    NameAtIndex(n);
    hide NameAt, NameIndex;
  }

  lemma RequiredLookups(H: Hash, c: CardSpec)
    ensures var f := RequiredFields(H, c);
            && Lookup(f, 0) == Num(PROFILE_VERSION) && Lookup(f, 1) == Raw(DOC_TYPE)
            && Lookup(f, 2) == Raw(CredentialReference(H, c.tokenValue)) && Lookup(f, 5) == Null
            && Lookup(f, 3) == Num(c.issuingAuthority) && Lookup(f, 4) == Num(c.activationSequence)
            && Lookup(f, 6) == Num(c.issuedAt) && Lookup(f, 7) == Num(c.expiresAt) && Lookup(f, 8) == Raw(c.keyClassical)
            && Lookup(f, 9) == Null && Lookup(f, 10) == Null && Lookup(f, 11) == Null
  {
    NamesInOrder();
    RequiredLookupsByName(H, c);
    hide RequiredFields, NameAt, NameIndex, CredentialReference;
  }

  lemma RequiredLookupsByName(H: Hash, c: CardSpec)
    ensures var f := RequiredFields(H, c);
            && PredecessorRef !in f && CardKeyPq !in f && IssuerSigClassical !in f && IssuerSigPq !in f
            && ProfileVersion in f && f[ProfileVersion] == Num(PROFILE_VERSION)
            && DocType in f && f[DocType] == Raw(DOC_TYPE)
            && CredentialRef in f && f[CredentialRef] == Raw(CredentialReference(H, c.tokenValue))
            && IssuingAuthority in f && f[IssuingAuthority] == Num(c.issuingAuthority)
            && ActivationSequence in f && f[ActivationSequence] == Num(c.activationSequence)
            && IssuedAt in f && f[IssuedAt] == Num(c.issuedAt)
            && ExpiresAt in f && f[ExpiresAt] == Num(c.expiresAt)
            && CardKeyClassical in f && f[CardKeyClassical] == Raw(c.keyClassical)
  {
    hide NameAt, NameIndex, CredentialReference, IsUtf8;
  }

  lemma BodyLookups(H: Hash, c: CardSpec)
    ensures var f := BodyFields(H, c);
            && Lookup(f, 0) == Num(PROFILE_VERSION) && Lookup(f, 1) == Raw(DOC_TYPE)
            && Lookup(f, 2) == Raw(CredentialReference(H, c.tokenValue))
            && Lookup(f, 3) == Num(c.issuingAuthority) && Lookup(f, 4) == Num(c.activationSequence)
            && Lookup(f, 5) == (if c.predecessor.Some? then Raw(CredentialReference(H, c.predecessor.value)) else Null)
            && Lookup(f, 6) == Num(c.issuedAt) && Lookup(f, 7) == Num(c.expiresAt) && Lookup(f, 8) == Raw(c.keyClassical)
            && Lookup(f, 9) == (if c.keyPq.Some? then Raw(c.keyPq.value) else Null)
  {
    hide Lookup, CredentialReference, RequiredFields, With, IsUtf8;
    RequiredLookups(H, c);
    var f := RequiredFields(H, c);
    WithLookup(f, CardKeyPq, c.keyPq);
    WithLookup(With(f, CardKeyPq, c.keyPq), PredecessorRef,
               if c.predecessor.Some? then Some(CredentialReference(H, c.predecessor.value)) else None);
  }

  lemma FieldsOfABuild(H: Hash, c: CardSpec, classical: Option<Signer>, pq: Option<Signer>, digest: Bytes)
    ensures var f := SignedFields(BodyFields(H, c), classical, pq, digest);
            && (forall n :: n in f ==> !n.Other? && f[n] != Null)
            && BodyOnly(f) == BodyFields(H, c) == BodyOnly(BodyFields(H, c))
            && Lookup(f, 0) == Num(PROFILE_VERSION) && Lookup(f, 1) == Raw(DOC_TYPE)
            && Lookup(f, 2) == Raw(CredentialReference(H, c.tokenValue))
            && Lookup(f, 3) == Num(c.issuingAuthority) && Lookup(f, 4) == Num(c.activationSequence)
            && Lookup(f, 5) == (if c.predecessor.Some? then Raw(CredentialReference(H, c.predecessor.value)) else Null)
            && Lookup(f, 6) == Num(c.issuedAt) && Lookup(f, 7) == Num(c.expiresAt) && Lookup(f, 8) == Raw(c.keyClassical)
            && Lookup(f, 9) == (if c.keyPq.Some? then Raw(c.keyPq.value) else Null)
            && Lookup(f, 10) == (if classical.Some? then Raw(Sign(classical.value, digest)) else Null)
            && Lookup(f, 11) == (if pq.Some? then Raw(Sign(pq.value, digest)) else Null)
  {
    hide BodyFields, SignedFields, BodyOnly, Lookup, CredentialReference, Sign;
    BodyFieldsAreBody(H, c);
    BodyLookups(H, c);
    SigningKeepsBody(BodyFields(H, c), classical, pq, digest);
  }

  lemma NamesInOrder()
    ensures NameAt(0) == ProfileVersion && NameAt(1) == DocType && NameAt(2) == CredentialRef
    ensures NameAt(3) == IssuingAuthority && NameAt(4) == ActivationSequence && NameAt(5) == PredecessorRef
    ensures NameAt(6) == IssuedAt && NameAt(7) == ExpiresAt && NameAt(8) == CardKeyClassical
    ensures NameAt(9) == CardKeyPq && NameAt(10) == IssuerSigClassical && NameAt(11) == IssuerSigPq
  {
  }

  predicate KeysFit(c: CardSpec) {
    |c.keyClassical| == CLASSICAL_KEY_LEN && (c.keyPq.Some? ==> |c.keyPq.value| == PQ_KEY_LEN)
  }

  /** A built object is readable exactly when its keys have the profile's lengths, which building
      does not check; and then a reader recomputes the digest each signer was given, and finds
      each signature over it. */
  lemma BuiltCardReads(H: Hash, c: CardSpec, classical: Option<Signer>, pq: Option<Signer>)
    requires BuildCard(H, c, classical, pq).Ok?
    ensures var blob := BuildCard(H, c, classical, pq).value;
            && (Decoding(blob).Ok? <==> KeysFit(c))
            && (KeysFit(c) ==>
                  var f, d := Decoding(blob).value, SigningDigest(H, BodyFields(H, c)).value;
                  && BodyOnly(f) == BodyFields(H, c)
                  && DigestOf(H, blob) == d
                  && f == SignedFields(BodyFields(H, c), classical, pq, d))
  {
    hide DecodeFrom, EncodeFrom, WellFormed, BodyFields, SignedFields, BodyOnly, MissingRequired, EncodeValue;
    var d := SigningDigest(H, BodyFields(H, c)).value;
    var f := SignedFields(BodyFields(H, c), classical, pq, d);
    FieldsOfABuild(H, c, classical, pq, d);
    ReadBackWithoutNulls(f);
    if KeysFit(c) {
      forall n | n in f ensures WellFormed(NameIndex(n), f[n]) {
        NameAtIndex(n);
        EncodedFieldFits(f, 0, NameIndex(n));
        FitIsWellFormed(NameIndex(n), f[n]);
      }
      AdmissibleSurvives(f);
    } else {
      var k := if |c.keyClassical| == CLASSICAL_KEY_LEN then 9 else 8;
      assert NameAt(k) in f && NameIndex(NameAt(k)) == k;
      WrongLengthIsIllFormed(k, f[NameAt(k)]);
    }
  }

  lemma DocTypeIsText()
    ensures IsUtf8(DOC_TYPE)
  {
    hide IsUtf8;
    AsciiIsUtf8(DOC_TYPE);
  }

  lemma FitIsWellFormed(j: nat, v: Value)
    requires j < VOCABULARY && EncodeValue(j, v).Ok? && |EncodeValue(j, v).value| <= MAX_LEN
    requires j == 1 ==> v == Raw(DOC_TYPE)
    requires FixedLength(j).Some? && v.Raw? ==> |v.bytes| == FixedLength(j).value
    ensures WellFormed(j, v)
  {
    hide IsUtf8;
    DocTypeIsText();
  }

  lemma WrongLengthIsIllFormed(j: nat, v: Value)
    requires j == 8 || j == 9
    requires v.Raw? && |v.bytes| != FixedLength(j).value
    ensures !WellFormed(j, v)
  {
  }
}
