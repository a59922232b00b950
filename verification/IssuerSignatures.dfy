/** The rule that both issuer signatures must verify when both are present: exactly when a reader
    keeps it, and what a reader that does not keep it accepts. */
module IssuerSignatures {
  import opened ByteStrings
  import opened Utf8
  import opened CardProfile
  import opened CardCodec
  import opened CardIssuance
  import opened CardBuilding

  /** A signature an object carries was verified by a verifier its reader has. */
  predicate Vouched(v: Option<Verifier>, digest: Bytes, signature: Value) {
    signature.Raw? ==> v.Some? && Verifies(v.value, digest, signature.bytes)
  }

  /** A reader's verdict covers every signature the object carries exactly when the reader has a verifier
      for each of them.  With both verifiers it always does. */
  lemma EverySignatureVerifiedIff(H: Hash, blob: Bytes, vc: Option<Verifier>, vp: Option<Verifier>, requirePq: bool, now: Option<int>)
    requires Authentic(H, blob, vc, vp, requirePq, now)
    ensures var f, d := Decoding(blob).value, DigestOf(H, blob);
            && (Lookup(f, 10).Raw? || Lookup(f, 11).Raw?)
            && (requirePq ==> Lookup(f, 11).Raw?)
            && (Vouched(vc, d, Lookup(f, 10)) && Vouched(vp, d, Lookup(f, 11))
                <==> (Lookup(f, 10).Raw? ==> vc.Some?) && (Lookup(f, 11).Raw? ==> vp.Some?))
  {
    hide Decoding, Encoding, Lookup, DigestOf, Verifies;
  }

  /** A reader without a post-quantum verifier decides two objects that differ only in the bytes of that
      signature alike, even when it requires the signature. */
  lemma UncheckedSignatureIsFree(H: Hash, f: Fields, signature: Bytes, vc: Option<Verifier>, requirePq: bool, now: Option<int>)
    requires Admissible(f) && IssuerSigPq in f && |signature| <= MAX_LEN
    ensures var g := f[IssuerSigPq := Raw(signature)];
            && Encoding(f).Ok? && Encoding(g).Ok?
            && (Authentic(H, Encoding(f).value, vc, None, requirePq, now)
                <==> Authentic(H, Encoding(g).value, vc, None, requirePq, now))
  {
    hide Encoding, Decoding, WellFormed, MissingRequired;
    var g := f[IssuerSigPq := Raw(signature)];
    ReplacedSignature(f, signature);
    AdmissibleSurvives(f);
    AdmissibleSurvives(g);
  }

  lemma ReplacedSignature(f: Fields, signature: Bytes)
    requires Admissible(f) && IssuerSigPq in f && |signature| <= MAX_LEN
    ensures var g := f[IssuerSigPq := Raw(signature)];
            && Admissible(g) && BodyOnly(f) == BodyOnly(g)
            && Lookup(f, 11).Raw? && Lookup(g, 11).Raw?
            && (forall k: nat :: k < 11 ==> Lookup(f, k) == Lookup(g, k))
  {
    hide WellFormed, NameAt, NameIndex, Lookup, BodyOnly, MissingRequired, With;
    SignatureNames();
    AnyBytesFit(signature);
    var g := With(f, IssuerSigPq, Some(signature));
    assert g == f[IssuerSigPq := Raw(signature)] by { WithValue(f, IssuerSigPq, signature); }
    FieldHolds(f, IssuerSigPq);
    AnyBytesFitOnly(f[IssuerSigPq]);
    NullsAreIllFormed(f);
    WithLookup(f, IssuerSigPq, Some(signature));
    WithKeepsBody(f, IssuerSigPq, Some(signature));
    SamePresence(f, g);
  }

  lemma WithValue(f: Fields, n: Name, v: Bytes)
    ensures With(f, n, Some(v)) == f[n := Raw(v)]
  {
  }

  lemma AnyBytesFit(v: Bytes)
    requires |v| <= MAX_LEN
    ensures WellFormed(11, Raw(v))
  {
  }

  lemma AnyBytesFitOnly(v: Value)
    requires WellFormed(11, v)
    ensures v.Raw?
  {
  }

  lemma FieldHolds(f: Fields, n: Name)
    requires n in f && !n.Other?
    ensures Lookup(f, NameIndex(n)) == f[n]
  {
    NameAtIndex(n);
  }

  lemma NullsAreIllFormed(f: Fields)
    requires forall n :: n in f ==> WellFormed(NameIndex(n), f[n])
    ensures forall n :: n in f ==> f[n] != Null
  {
    hide NameIndex;
  }

  lemma SamePresence(f: Fields, g: Fields)
    requires forall k: nat :: k < VOCABULARY ==> (Lookup(f, k) != Null <==> Lookup(g, k) != Null)
    ensures MissingRequired(f) <==> MissingRequired(g)
  {
    PresentIsLookup(f);
    PresentIsLookup(g);
    hide Lookup, Present;
  }

  // ------------------------------------------------------------------
  // What is accepted when a verifier is missing
  // ------------------------------------------------------------------

  const LAST_SECOND := 0xFFFF_FFFF_FFFF_FFFF

  /** Some object's contents: they fit, and the keys have the profile's lengths. */
  function SampleSpec(): (c: CardSpec)
    ensures SpecFits(c) && KeysFit(c) && c.expiresAt == LAST_SECOND
  {
    CardSpec([], 0, 0, 0, LAST_SECOND, seq(CLASSICAL_KEY_LEN, _ => 0), Some(seq(PQ_KEY_LEN, _ => 0)), None)
  }

  /** A signer that signs everything with the same bytes. */
  function Constant(signature: Bytes): (s: Signer)
    ensures forall d :: Sign(s, d) == signature
  {
    Signer((d: Bytes) => signature)
  }

  /** For every good classical signature scheme and every string a post-quantum verifier rejects, there is
      an object that carries the string as its post-quantum signature, and is authentic to a reader
      with the classical verifier alone although it requires a post-quantum signature; a reader with both
      verifiers refuses it.  And the other way round: without the classical verifier, a classical
      signature that the other verifier rejects is accepted. */
  lemma DowngradeIsAccepted(H: Hash, good: Signer, v: Verifier, bad: Bytes, u: Verifier, now: Option<int>)
    returns (badPq: Bytes, badClassical: Bytes)
    requires |bad| <= MAX_LEN && forall d: Bytes :: |Sign(good, d)| <= MAX_LEN
    requires forall d: Bytes :: Verifies(v, d, Sign(good, d)) && !Verifies(u, d, bad)
    requires now.Some? ==> now.value < LAST_SECOND
    ensures Authentic(H, badPq, Some(v), None, true, now) && !Authentic(H, badPq, Some(v), Some(u), true, now)
    ensures Decoding(badPq).Ok? && Lookup(Decoding(badPq).value, 11) == Raw(bad)
    ensures Authentic(H, badClassical, None, Some(v), true, now) && !Authentic(H, badClassical, Some(u), Some(v), true, now)
    ensures Decoding(badClassical).Ok? && Lookup(Decoding(badClassical).value, 10) == Raw(bad)
  {
    hide *;
    var c := SampleSpec();
    var d := BuildDigest(H, c);
    badPq := BuiltWithBoth(H, c, good, Constant(bad));
    badClassical := BuiltWithBoth(H, c, Constant(bad), good);
    CheckedSignature(Some(v), Some(good), d);
    CheckedSignature(Some(u), Some(Constant(bad)), d);
    CheckedSignature(None, Some(Constant(bad)), d);
    BuiltCardAuthentic(H, c, Some(good), Some(Constant(bad)), Some(v), None, true, now);
    BuiltCardAuthentic(H, c, Some(good), Some(Constant(bad)), Some(v), Some(u), true, now);
    BuiltCardAuthentic(H, c, Some(Constant(bad)), Some(good), None, Some(v), true, now);
    BuiltCardAuthentic(H, c, Some(Constant(bad)), Some(good), Some(u), Some(v), true, now);
  }

  /** Every signature the object carries was verified. */
  predicate AllVouched(H: Hash, blob: Bytes, vc: Option<Verifier>, vp: Option<Verifier>)
    requires Decoding(blob).Ok?
  {
    var f, d := Decoding(blob).value, DigestOf(H, blob);
    Vouched(vc, d, Lookup(f, 10)) && Vouched(vp, d, Lookup(f, 11))
  }

  /** A reader keeps the rule exactly when it has both verifiers: it can be said before any object is
      seen, of every reader but one whose only verifier takes nothing. */
  lemma RuleKeptIff(H: Hash, vc: Option<Verifier>, vp: Option<Verifier>, good: Signer, requirePq: bool, now: Option<int>)
    requires vc.Some? || vp.Some?
    requires vc.Some? != vp.Some? ==>
               && (forall d: Bytes :: |Sign(good, d)| <= MAX_LEN)
               && (forall d: Bytes :: (vc.Some? ==> Verifies(vc.value, d, Sign(good, d))) && (vp.Some? ==> Verifies(vp.value, d, Sign(good, d))))
               && (now.Some? ==> now.value < LAST_SECOND)
    ensures (forall blob :: Authentic(H, blob, vc, vp, requirePq, now) ==> AllVouched(H, blob, vc, vp)) <==> vc.Some? && vp.Some?
  {
    hide AllVouched, Decoding, Lookup, DigestOf, Verifies;
    if vc.Some? && vp.Some? {
      forall blob | Authentic(H, blob, vc, vp, requirePq, now) ensures AllVouched(H, blob, vc, vp) {
        BothVouch(H, blob, vc, vp, requirePq, now);
      }
    } else {
      var blob := UnvouchedObject(H, vc, vp, good, requirePq, now);
    }
  }

  lemma BothVouch(H: Hash, blob: Bytes, vc: Option<Verifier>, vp: Option<Verifier>, requirePq: bool, now: Option<int>)
    requires vc.Some? && vp.Some? && Authentic(H, blob, vc, vp, requirePq, now)
    ensures AllVouched(H, blob, vc, vp)
  {
    hide Authentic, Decoding, Lookup, Vouched;
    EverySignatureVerifiedIff(H, blob, vc, vp, requirePq, now);
  }

  lemma UnvouchedObject(H: Hash, vc: Option<Verifier>, vp: Option<Verifier>, good: Signer, requirePq: bool, now: Option<int>)
    returns (blob: Bytes)
    requires vc.Some? != vp.Some? && forall d: Bytes :: |Sign(good, d)| <= MAX_LEN
    requires forall d: Bytes :: (vc.Some? ==> Verifies(vc.value, d, Sign(good, d))) && (vp.Some? ==> Verifies(vp.value, d, Sign(good, d)))
    requires now.Some? ==> now.value < LAST_SECOND
    ensures Authentic(H, blob, vc, vp, requirePq, now) && !AllVouched(H, blob, vc, vp)
  {
    hide Authentic, Decoding, Lookup, BuildCard, KeysFit, SpecFits, Sign, Verifies, PassesCheck;
    var c := SampleSpec();
    blob := BuiltWithBoth(H, c, good, good);
    CheckedSignature(vc, Some(good), BuildDigest(H, c));
    CheckedSignature(vp, Some(good), BuildDigest(H, c));
    BuiltCardAuthentic(H, c, Some(good), Some(good), vc, vp, requirePq, now);
  }

  lemma CheckedSignature(v: Option<Verifier>, s: Option<Signer>, d: Bytes)
    ensures PassesCheck(v, s, d) <==> (v.Some? && s.Some? ==> Verifies(v.value, d, Sign(s.value, d)))
  {
  }

  /** An object both signers signed. */
  lemma BuiltWithBoth(H: Hash, c: CardSpec, classical: Signer, pq: Signer) returns (blob: Bytes)
    requires SpecFits(c) && KeysFit(c)
    requires |Sign(classical, BuildDigest(H, c))| <= MAX_LEN && |Sign(pq, BuildDigest(H, c))| <= MAX_LEN
    ensures BuildCard(H, c, Some(classical), Some(pq)) == Ok(blob) && Decoding(blob).Ok?
    ensures Lookup(Decoding(blob).value, 10) == Raw(Sign(classical, BuildDigest(H, c)))
    ensures Lookup(Decoding(blob).value, 11) == Raw(Sign(pq, BuildDigest(H, c)))
  {
    hide BuildCard, SpecFits, KeysFit, Decoding, BodyFields, SignedFields, BodyOnly, Lookup, Sign;
    DigestsIff(H, c);
    BuildsIff(H, c, Some(classical), Some(pq));
    BuiltCardReads(H, c, Some(classical), Some(pq));
    FieldsOfABuild(H, c, Some(classical), Some(pq), BuildDigest(H, c));
    blob := BuildCard(H, c, Some(classical), Some(pq)).value;
  }
}
