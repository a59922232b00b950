/** The card object: a deterministic tag-length-value encoding of a closed set of fields, what its
    issuer signs, and what a reader concludes from it offline. */
module CardProfile {
  import opened ByteStrings
  import opened Utf8

  // ------------------------------------------------------------------
  // Fields
  // ------------------------------------------------------------------

  /** The vocabulary, in tag order, and every other name. */
  datatype Name =
    | ProfileVersion | DocType | CredentialRef | IssuingAuthority | ActivationSequence | PredecessorRef
    | IssuedAt | ExpiresAt | CardKeyClassical | CardKeyPq | IssuerSigClassical | IssuerSigPq
    | Other(name: string)

  /** A field value; a text field holds its UTF-8 bytes. */
  datatype Value = Null | Num(n: int) | Raw(bytes: Bytes)

  type Fields = map<Name, Value>

  const PROFILE_VERSION := 1
  // "id.polaris.card.1"
  const DOC_TYPE: Bytes := [
      0x69, 0x64, 0x2E, 0x70, 0x6F, 0x6C, 0x61, 0x72, 0x69, 0x73, 0x2E, 0x63,
      0x61, 0x72, 0x64, 0x2E, 0x31]
  const CLASSICAL_KEY_LEN := 65
  const PQ_KEY_LEN := 1952
  const MAX_LEN := 0xFFFF

  const FORBIDDEN: set<string> := {
    "token_value", "legal_name", "date_of_birth", "dob", "name", "given_name", "family_name",
    "biometric", "biometric_template", "fingerprint", "face", "iris",
    "duress_code", "duress_code_hash", "duress_key", "duress_pubkey",
    "individual_id", "physical_serial", "address", "nationality"
  }

  /** The number of names in the vocabulary, and of those the issuer signs. */
  const VOCABULARY := 12
  const SIGNED := 10

  function NameIndex(n: Name): (j: nat)
    ensures j < VOCABULARY <==> !n.Other?
  {
    match n
    case ProfileVersion => 0
    case DocType => 1
    case CredentialRef => 2
    case IssuingAuthority => 3
    case ActivationSequence => 4
    case PredecessorRef => 5
    case IssuedAt => 6
    case ExpiresAt => 7
    case CardKeyClassical => 8
    case CardKeyPq => 9
    case IssuerSigClassical => 10
    case IssuerSigPq => 11
    case Other(_) => 12
  }

  function NameAt(j: nat): (n: Name)
    requires j < VOCABULARY
    ensures NameIndex(n) == j
  {
    if j == 0 then ProfileVersion else if j == 1 then DocType else if j == 2 then CredentialRef
    else if j == 3 then IssuingAuthority else if j == 4 then ActivationSequence else if j == 5 then PredecessorRef
    else if j == 6 then IssuedAt else if j == 7 then ExpiresAt else if j == 8 then CardKeyClassical
    else if j == 9 then CardKeyPq else if j == 10 then IssuerSigClassical else IssuerSigPq
  }

  lemma NameAtIndex(n: Name)
    requires !n.Other?
    ensures NameAt(NameIndex(n)) == n
  {
  }

  /** Body tags run from 0x01, signature tags from 0x20. */
  function TagAt(j: nat): byte
    requires j < VOCABULARY
  {
    if j < SIGNED then j + 0x01 else j - SIGNED + 0x20
  }

  function TagIndex(tag: byte): (j: Option<nat>)
    ensures j.Some? ==> j.value < VOCABULARY && TagAt(j.value) == tag
    ensures j == None ==> forall k: nat :: k < VOCABULARY ==> TagAt(k) != tag
  {
    if 0x01 <= tag <= 0x0A then Some(tag - 0x01)
    else if 0x20 <= tag <= 0x21 then Some(tag - 0x20 + SIGNED)
    else None
  }

  predicate Required(j: nat) {
    j < 5 || 6 <= j <= 8
  }

  /** The width of an integer field, 0 for the others. */
  function IntWidth(j: nat): nat {
    if j == 0 then 1 else if j == 3 || j == 4 then 4 else if j == 6 || j == 7 then 8 else 0
  }

  /** The exact length of a reference or key field, if it has one. */
  function FixedLength(j: nat): Option<nat> {
    if j == 2 || j == 5 then Some(32)
    else if j == 8 then Some(CLASSICAL_KEY_LEN)
    else if j == 9 then Some(PQ_KEY_LEN)
    else None
  }

  predicate Present(f: Fields, j: nat)
    requires j < VOCABULARY
  {
    NameAt(j) in f && f[NameAt(j)] != Null
  }

  predicate MissingRequired(f: Fields) {
    exists j: nat :: j < VOCABULARY && Required(j) && !Present(f, j)
  }

  datatype CardError =
    | Forbidden | Unknown | Missing | Unencodable | TooLong
    | Truncated | UnknownTag | RepeatedTag | OutOfOrder | BadLength | NotUtf8 | WrongDocType | WrongVersion
    | NoSigner | ShortChallenge

  // ------------------------------------------------------------------
  // Encoding
  // ------------------------------------------------------------------

  function EncodeValue(j: nat, v: Value): Result<Bytes, CardError> {
    var w := IntWidth(j);
    if w > 0 then
      if v.Num? && 0 <= v.n < Limit(w) then Ok(BigEndian(v.n, w)) else Err(Unencodable)
    else if v.Raw? then Ok(v.bytes) else Err(Unencodable)
  }

  function Tlv(tag: byte, value: Bytes): Bytes {
    [tag] + BigEndian(|value|, 2) + value
  }

  /** The encoding of one field, if it has one. */
  function EncodeField(j: nat, f: Fields): Result<Bytes, CardError>
    requires j < VOCABULARY
  {
    if !Present(f, j) then Ok([])
    else
      match EncodeValue(j, f[NameAt(j)])
      case Err(e) => Err(e)
      case Ok(value) => if |value| > MAX_LEN then Err(TooLong) else Ok(Tlv(TagAt(j), value))
  }

  function Append(a: Result<Bytes, CardError>, b: Result<Bytes, CardError>): Result<Bytes, CardError> {
    if a.Err? then a else if b.Err? then b else Ok(a.value + b.value)
  }

  /** The fields from the j-th on, in tag order; the first error wins. */
  function EncodeFrom(j: nat, f: Fields): Result<Bytes, CardError>
    requires j <= VOCABULARY
    decreases VOCABULARY - j
  {
    if j == VOCABULARY then Ok([]) else Append(EncodeField(j, f), EncodeFrom(j + 1, f))
  }

  function Encoding(f: Fields): Result<Bytes, CardError> {
    if exists n :: n in f && n.Other? && n.name in FORBIDDEN then Err(Forbidden)
    else if exists n :: n in f && n.Other? then Err(Unknown)
    else if MissingRequired(f) then Err(Missing)
    else EncodeFrom(0, f)
  }

  method Encode(f: Fields) returns (r: Result<Bytes, CardError>)
    ensures r == Encoding(f)
  {
    hide EncodeValue, EncodeFrom, Tlv, NameAt, TagAt, MissingRequired;
    if exists n :: n in f && n.Other? && n.name in FORBIDDEN { return Err(Forbidden); }
    if exists n :: n in f && n.Other? { return Err(Unknown); }
    if MissingRequired(f) { return Err(Missing); }
    var out: Bytes := [];
    AppendNothing(EncodeFrom(0, f));
    EncodeFromUnfolds(0, f);
    for j := 0 to VOCABULARY
      invariant EncodeFrom(0, f) == Append(Ok(out), EncodeFrom(j, f))
    {
      EncodeFromUnfolds(j, f);
      AppendAssociates(Ok(out), EncodeField(j, f), EncodeFrom(j + 1, f));
      if Present(f, j) {
        var value := EncodeValue(j, f[NameAt(j)]);
        if value.Err? { return Err(value.error); }
        if |value.value| > MAX_LEN { return Err(TooLong); }
        out := out + Tlv(TagAt(j), value.value);
      } else {
        assert out + [] == out;
      }
    }
    AppendNothing(Ok(out));
    r := Ok(out);
  }

  lemma EncodeFromUnfolds(j: nat, f: Fields)
    requires j < VOCABULARY
    ensures EncodeFrom(j, f) == Append(EncodeField(j, f), EncodeFrom(j + 1, f))
    ensures EncodeFrom(VOCABULARY, f) == Ok([])
  {
  }

  lemma AppendNothing(a: Result<Bytes, CardError>)
    ensures Append(Ok([]), a) == a && Append(a, Ok([])) == a
  {
    if a.Ok? { assert [] + a.value == a.value && a.value + [] == a.value; }
  }

  lemma AppendAssociates(a: Result<Bytes, CardError>, b: Result<Bytes, CardError>, c: Result<Bytes, CardError>)
    ensures Append(a, Append(b, c)) == Append(Append(a, b), c)
  {
    if a.Ok? && b.Ok? && c.Ok? { assert a.value + (b.value + c.value) == (a.value + b.value) + c.value; }
  }

  // ------------------------------------------------------------------
  // Decoding
  // ------------------------------------------------------------------

  function DecodeValue(j: nat, raw: Bytes): Result<Value, CardError> {
    var w, fixed := IntWidth(j), FixedLength(j);
    if w > 0 then if |raw| != w then Err(BadLength) else Ok(Num(FromBigEndian(raw)))
    else if j == 1 then if IsUtf8(raw) then Ok(Raw(raw)) else Err(NotUtf8)
    else if fixed.Some? && |raw| != fixed.value then Err(BadLength)
    else Ok(Raw(raw))
  }

  /** The records of a byte string, after a record with tag `last` and with `f` already read. */
  function DecodeFrom(blob: Bytes, last: int, f: Fields): Result<Fields, CardError>
    decreases |blob|
  {
    if blob == [] then Ok(f)
    else if |blob| < 3 then Err(Truncated)
    else
      var tag, length := blob[0], FromBigEndian(blob[1..3]);
      if 3 + length > |blob| then Err(Truncated)
      else if TagIndex(tag) == None then Err(UnknownTag)
      else
        var j := TagIndex(tag).value;
        if NameAt(j) in f then Err(RepeatedTag)
        else if tag <= last then Err(OutOfOrder)
        else
          match DecodeValue(j, blob[3..3 + length])
          case Err(e) => Err(e)
          case Ok(v) => DecodeFrom(blob[3 + length..], tag, f[NameAt(j) := v])
  }

  /** The profile's own checks, once every record is read. */
  function Finish(f: Fields): Result<Fields, CardError> {
    if MissingRequired(f) then Err(Missing)
    else if Lookup(f, 1) != Raw(DOC_TYPE) then Err(WrongDocType)
    else if Lookup(f, 0) != Num(PROFILE_VERSION) then Err(WrongVersion)
    else Ok(f)
  }

  function Lookup(f: Fields, j: nat): Value
    requires j < VOCABULARY
  {
    if NameAt(j) in f then f[NameAt(j)] else Null
  }

  function Decoding(blob: Bytes): Result<Fields, CardError> {
    match DecodeFrom(blob, -1, map[])
    case Err(e) => Err(e)
    case Ok(f) => Finish(f)
  }

  method Decode(blob: Bytes) returns (r: Result<Fields, CardError>)
    ensures r == Decoding(blob)
  {
    hide DecodeValue, FromBigEndian, Finish, NameAt, NameIndex, TagIndex;
    var fields: Fields, seen: set<byte>, last: int, i := map[], {}, -1, 0;
    assert blob[0..] == blob;
    while i < |blob|
      invariant 0 <= i <= |blob|
      invariant forall j: nat :: j < VOCABULARY ==> (TagAt(j) in seen <==> NameAt(j) in fields)
      invariant DecodeFrom(blob[i..], last, fields) == DecodeFrom(blob, -1, map[])
      decreases |blob| - i
    {
      ghost var here := blob[i..];
      if i + 3 > |blob| { return Err(Truncated); }
      assert blob[i + 1..i + 3] == here[1..3];
      var tag, length := blob[i], FromBigEndian(blob[i + 1..i + 3]);
      i := i + 3;
      if i + length > |blob| { return Err(Truncated); }
      var raw := blob[i..i + length];
      assert raw == here[3..3 + length] && blob[i + length..] == here[3 + length..];
      i := i + length;
      var index := TagIndex(tag);
      if index == None { return Err(UnknownTag); }
      if tag in seen { return Err(RepeatedTag); }
      if tag <= last { return Err(OutOfOrder); }
      seen, last := seen + {tag}, tag;
      var v := DecodeValue(index.value, raw);
      if v.Err? { return Err(v.error); }
      fields := fields[NameAt(index.value) := v.value];
    }
    assert blob[i..] == [];
    r := Finish(fields);
  }
}
