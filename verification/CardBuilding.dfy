/** When a card object can be built, how long it is, and when it is authentic: from what its issuer
    is given, without building it. */
module CardBuilding {
  import opened ByteStrings
  import opened Utf8
  import opened CardProfile
  import opened CardCodec
  import opened CardIssuance

  // ------------------------------------------------------------------
  // Encoded sizes
  // ------------------------------------------------------------------

  /** A value that can be written into its field. */
  predicate Encodable(j: nat, v: Value) {
    if IntWidth(j) > 0 then v.Num? && 0 <= v.n < Limit(IntWidth(j)) else v.Raw? && |v.bytes| <= MAX_LEN
  }

  /** What a field takes up: a tag, two length bytes and the value. */
  function FieldSize(j: nat, v: Value): nat {
    if v == Null then 0 else 3 + (if IntWidth(j) > 0 then IntWidth(j) else if v.Raw? then |v.bytes| else 0)
  }

  function SizeFrom(j: nat, f: Fields): nat
    requires j <= VOCABULARY
    decreases VOCABULARY - j
  {
    if j == VOCABULARY then 0 else FieldSize(j, Lookup(f, j)) + SizeFrom(j + 1, f)
  }

  /** Fields encode exactly when every value present can be written, and then to their sizes. */
  lemma {:induction false} EncodesIff(j: nat, f: Fields)
    requires j <= VOCABULARY
    ensures EncodeFrom(j, f).Ok?
            <==> forall k: nat :: j <= k < VOCABULARY && Lookup(f, k) != Null ==> Encodable(k, Lookup(f, k))
    ensures EncodeFrom(j, f).Ok? ==> |EncodeFrom(j, f).value| == SizeFrom(j, f)
    decreases VOCABULARY - j
  {
    hide EncodeFrom, EncodeField, Encodable, Lookup, FieldSize;
    EncodeFromUnfolds(0, f);
    if j < VOCABULARY {
      EncodeFromUnfolds(j, f);
      FieldEncodesIff(j, f);
      EncodesIff(j + 1, f);
    }
  }

  lemma FieldEncodesIff(j: nat, f: Fields)
    requires j < VOCABULARY
    ensures EncodeField(j, f).Ok? <==> Lookup(f, j) == Null || Encodable(j, Lookup(f, j))
    ensures EncodeField(j, f).Ok? ==> |EncodeField(j, f).value| == FieldSize(j, Lookup(f, j))
  {
    hide NameAt;
  }

  lemma SizeOfAll(f: Fields)
    ensures SizeFrom(0, f)
            == FieldSize(0, Lookup(f, 0)) + FieldSize(1, Lookup(f, 1)) + FieldSize(2, Lookup(f, 2)) + FieldSize(3, Lookup(f, 3))
               + FieldSize(4, Lookup(f, 4)) + FieldSize(5, Lookup(f, 5)) + FieldSize(6, Lookup(f, 6)) + FieldSize(7, Lookup(f, 7))
               + FieldSize(8, Lookup(f, 8)) + FieldSize(9, Lookup(f, 9)) + FieldSize(10, Lookup(f, 10)) + FieldSize(11, Lookup(f, 11))
  {
    hide FieldSize, Lookup;
  }

  lemma Widths()
    ensures Limit(1) == 0x100 && Limit(4) == 0x1_0000_0000 && Limit(8) == 0x1_0000_0000_0000_0000
  {
    assert Limit(1) == 0x100 * Limit(0) && Limit(2) == 0x100 * Limit(1) && Limit(3) == 0x100 * Limit(2);
    assert Limit(4) == 0x100 * Limit(3) && Limit(5) == 0x100 * Limit(4) && Limit(6) == 0x100 * Limit(5);
    assert Limit(7) == 0x100 * Limit(6) && Limit(8) == 0x100 * Limit(7);
  }

  // ------------------------------------------------------------------
  // Building
  // ------------------------------------------------------------------

  predicate SpecFits(c: CardSpec) {
    && 0 <= c.issuingAuthority < 0x1_0000_0000 && 0 <= c.activationSequence < 0x1_0000_0000
    && 0 <= c.issuedAt < 0x1_0000_0000_0000_0000 && 0 <= c.expiresAt < 0x1_0000_0000_0000_0000
    && |c.keyClassical| <= MAX_LEN && (c.keyPq.Some? ==> |c.keyPq.value| <= MAX_LEN)
  }

  /** The digest both signers are given. */
  function BuildDigest(H: Hash, c: CardSpec): Bytes {
    match SigningDigest(H, BodyFields(H, c))
    case Err(_) => []
    case Ok(d) => d
  }

  function SignatureSize(s: Option<Signer>, digest: Bytes): nat {
    if s.Some? then 3 + |Sign(s.value, digest)| else 0
  }

  function BuiltSize(H: Hash, c: CardSpec, classical: Option<Signer>, pq: Option<Signer>): nat {
    98 + |c.keyClassical| + (if c.keyPq.Some? then 3 + |c.keyPq.value| else 0) + (if c.predecessor.Some? then 35 else 0)
    + SignatureSize(classical, BuildDigest(H, c)) + SignatureSize(pq, BuildDigest(H, c))
  }

  predicate SignatureFits(s: Option<Signer>, digest: Bytes) {
    s.Some? ==> |Sign(s.value, digest)| <= MAX_LEN
  }

  /** An object is built exactly when there is a signer, every number is in its field's range, and keys
      and signatures fit their length bytes; and this is how long it is. */
  lemma BuildsIff(H: Hash, c: CardSpec, classical: Option<Signer>, pq: Option<Signer>)
    ensures BuildCard(H, c, classical, pq).Ok?
            <==> && (classical.Some? || pq.Some?)
                 && SpecFits(c)
                 && SignatureFits(classical, BuildDigest(H, c)) && SignatureFits(pq, BuildDigest(H, c))
    ensures classical == None && pq == None ==> BuildCard(H, c, classical, pq) == Err(NoSigner)
    ensures BuildCard(H, c, classical, pq).Ok? ==> |BuildCard(H, c, classical, pq).value| == BuiltSize(H, c, classical, pq)
  {
    hide BodyFields, SignedFields, SpecFits, Encoding, SigningDigest, SignatureFits, BuiltSize;
    DigestsIff(H, c);
    FieldsEncodeIff(H, c, classical, pq, BuildDigest(H, c));
  }

  /** The body can be digested exactly when its own fields fit. */
  lemma DigestsIff(H: Hash, c: CardSpec)
    ensures SigningDigest(H, BodyFields(H, c)).Ok? <==> SpecFits(c)
  {
    hide BodyFields, SignedFields, BodyOnly, SpecFits, Encoding;
    FieldsOfABuild(H, c, None, None, []);
    FieldsEncodeIff(H, c, None, None, []);
    UnsignedFields(BodyFields(H, c));
  }

  lemma FieldsEncodeIff(H: Hash, c: CardSpec, classical: Option<Signer>, pq: Option<Signer>, d: Bytes)
    ensures var f := SignedFields(BodyFields(H, c), classical, pq, d);
            && (Encoding(f).Ok? <==> SpecFits(c) && SignatureFits(classical, d) && SignatureFits(pq, d))
            && (Encoding(f).Ok? && d == BuildDigest(H, c) ==> |Encoding(f).value| == BuiltSize(H, c, classical, pq))
  {
    hide BodyFields, SignedFields, SpecFits, SignatureFits, BuiltSize, BuildDigest, EncodeFrom, MissingRequired, Encodable, Lookup,
         SizeFrom;
    var f := SignedFields(BodyFields(H, c), classical, pq, d);
    FieldsOfABuild(H, c, classical, pq, d);
    BuildFieldsEncode(H, c, classical, pq, d);
    NoneRequiredMissing(f);
    EncodesIff(0, f);
  }

  lemma UnsignedFields(f: Fields)
    ensures SignedFields(f, None, None, []) == f
  {
  }

  lemma BuildFieldsEncode(H: Hash, c: CardSpec, classical: Option<Signer>, pq: Option<Signer>, d: Bytes)
    ensures var f := SignedFields(BodyFields(H, c), classical, pq, d);
            && ((forall k: nat :: 0 <= k < VOCABULARY && Lookup(f, k) != Null ==> Encodable(k, Lookup(f, k)))
                <==> SpecFits(c) && SignatureFits(classical, d) && SignatureFits(pq, d))
            && (SpecFits(c) && d == BuildDigest(H, c) ==> SizeFrom(0, f) == BuiltSize(H, c, classical, pq))
  {
    hide BodyFields, SignedFields, BodyOnly, Lookup, CredentialReference, Sign, BuildDigest;
    FieldsOfABuild(H, c, classical, pq, d);
    Widths();
    SizeOfAll(SignedFields(BodyFields(H, c), classical, pq, d));
    hide SizeFrom, Limit;
  }

  lemma NoneRequiredMissing(f: Fields)
    requires && Lookup(f, 0) != Null && Lookup(f, 1) != Null && Lookup(f, 2) != Null && Lookup(f, 3) != Null
             && Lookup(f, 4) != Null && Lookup(f, 6) != Null && Lookup(f, 7) != Null && Lookup(f, 8) != Null
    ensures !MissingRequired(f)
  {
    PresentIsLookup(f);
    hide Present, Lookup, NameAt;
  }

  lemma PresentIsLookup(f: Fields)
    ensures forall k: nat :: k < VOCABULARY ==> (Present(f, k) <==> Lookup(f, k) != Null)
  {
    hide NameAt;
  }

  // ------------------------------------------------------------------
  // Deciding what was built
  // ------------------------------------------------------------------

  /** A reader with a verifier for a signature that is there finds it good. */
  predicate PassesCheck(v: Option<Verifier>, s: Option<Signer>, digest: Bytes) {
    v.Some? && s.Some? ==> Verifies(v.value, digest, Sign(s.value, digest))
  }

  /** A built object is authentic to a reader, with whichever verifiers it has, exactly when its keys
      have the profile's lengths, the reader checks at least one of its signatures, those it checks
      verify over the digest their signer received, the post-quantum one is there if it is required,
      and it has not expired.  Nothing depends on a signature the reader has no verifier for. */
  lemma BuiltCardAuthentic(H: Hash, c: CardSpec, classical: Option<Signer>, pq: Option<Signer>, vc: Option<Verifier>,
                           vp: Option<Verifier>, requirePq: bool, now: Option<int>)
    requires BuildCard(H, c, classical, pq).Ok?
    ensures Authentic(H, BuildCard(H, c, classical, pq).value, vc, vp, requirePq, now)
            <==> && KeysFit(c)
                 && ((vc.Some? && classical.Some?) || (vp.Some? && pq.Some?))
                 && PassesCheck(vc, classical, BuildDigest(H, c)) && PassesCheck(vp, pq, BuildDigest(H, c))
                 && (requirePq ==> pq.Some?)
                 && (now.Some? ==> now.value < c.expiresAt)
  {
    hide Decoding, Encoding, BodyFields, SignedFields, BodyOnly, Verifies, Sign;
    BuiltCardReads(H, c, classical, pq);
    FieldsOfABuild(H, c, classical, pq, BuildDigest(H, c));
  }
}
