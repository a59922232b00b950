/** One card object has one encoding: decoding and encoding are inverse to each other on exactly
    the byte strings a reader accepts and exactly the field maps the profile admits. */
module CardCodec {
  import opened ByteStrings
  import opened Utf8
  import opened CardProfile

  /** A value the profile admits for its field. */
  predicate WellFormed(j: nat, v: Value) {
    var w, fixed := IntWidth(j), FixedLength(j);
    if w > 0 then v.Num? && 0 <= v.n < Limit(w)
    else
      && v.Raw? && |v.bytes| <= MAX_LEN
      && (j == 1 ==> IsUtf8(v.bytes))
      && (fixed.Some? ==> |v.bytes| == fixed.value)
  }

  /** The field maps of the profile: known names, well-formed values, nothing required missing,
      its document type and its version. */
  ghost predicate Admissible(f: Fields) {
    && (forall n :: n in f ==> !n.Other? && WellFormed(NameIndex(n), f[n]))
    && !MissingRequired(f)
    && Lookup(f, 1) == Raw(DOC_TYPE) && Lookup(f, 0) == Num(PROFILE_VERSION)
  }

  // ------------------------------------------------------------------
  // Values
  // ------------------------------------------------------------------

  lemma ValueRoundTrip(j: nat, v: Value)
    requires WellFormed(j, v)
    ensures EncodeValue(j, v).Ok? && |EncodeValue(j, v).value| <= MAX_LEN
    ensures DecodeValue(j, EncodeValue(j, v).value) == Ok(v)
  {
    if IntWidth(j) > 0 { BigEndianRoundTrip(v.n, IntWidth(j)); }
  }

  lemma RawRoundTrip(j: nat, raw: Bytes)
    requires |raw| <= MAX_LEN && DecodeValue(j, raw).Ok?
    ensures WellFormed(j, DecodeValue(j, raw).value)
    ensures EncodeValue(j, DecodeValue(j, raw).value) == Ok(raw)
  {
    if IntWidth(j) > 0 { FromBigEndianRoundTrip(raw); }
  }

  lemma LengthFits(n: nat)
    ensures n <= MAX_LEN ==> FromBigEndian(BigEndian(n, 2)) == n
    ensures Limit(2) == MAX_LEN + 1
  {
    assert Limit(2) == 0x100 * Limit(1) && Limit(1) == 0x100 * Limit(0);
    if n <= MAX_LEN { BigEndianRoundTrip(n, 2); }
  }

  /** One record read off the front of a byte string. */
  lemma DecodeFromUnfolds(j: nat, raw: Bytes, rest: Bytes, last: int, f: Fields)
    requires j < VOCABULARY && |raw| <= MAX_LEN && NameAt(j) !in f && last < TagAt(j)
    ensures DecodeFrom(Tlv(TagAt(j), raw) + rest, last, f)
            == match DecodeValue(j, raw)
               case Err(e) => Err(e)
               case Ok(v) => DecodeFrom(rest, TagAt(j), f[NameAt(j) := v])
  {
    hide DecodeValue, BigEndian, FromBigEndian, IsUtf8;
    LengthFits(|raw|);
    var blob := Tlv(TagAt(j), raw) + rest;
    assert blob[0] == TagAt(j) && blob[1..3] == BigEndian(|raw|, 2);
    assert blob[3..3 + |raw|] == raw && blob[3 + |raw|..] == rest;
    assert TagIndex(TagAt(j)).value == j;
  }

  // ------------------------------------------------------------------
  // Every accepted byte string is the encoding of what it decodes to
  // ------------------------------------------------------------------

  /** The greatest tag among the first `from` names. */
  function LastTag(from: nat): int
    requires from <= VOCABULARY
  {
    if from == 0 then -1 else TagAt(from - 1)
  }

  ghost predicate Below(f: Fields, from: nat) {
    forall n :: n in f ==> NameIndex(n) < from
  }

  lemma {:induction false} SkipAbsent(f: Fields, from: nat, until: nat)
    requires from <= until <= VOCABULARY
    requires forall k: nat :: from <= k < until ==> !Present(f, k)
    ensures EncodeFrom(from, f) == EncodeFrom(until, f)
    decreases until - from
  {
    if from < until {
      SkipAbsent(f, from + 1, until);
      AppendNothing(EncodeFrom(from + 1, f));
    }
  }

  lemma {:induction false} DecodedTail(blob: Bytes, from: nat, f: Fields, g: Fields)
    requires from <= VOCABULARY && Below(f, from)
    requires forall n :: n in f ==> f[n] != Null
    requires DecodeFrom(blob, LastTag(from), f) == Ok(g)
    ensures forall n :: n in f ==> n in g && g[n] == f[n]
    ensures forall n :: n in g && n !in f ==> from <= NameIndex(n) < VOCABULARY && WellFormed(NameIndex(n), g[n])
    ensures EncodeFrom(from, g) == Ok(blob)
    decreases |blob|
  {
    hide DecodeValue, EncodeFrom, EncodeValue, WellFormed, NameAt, NameIndex, BigEndian, FromBigEndian, TagIndex, IsUtf8, EncodeField, Limit;
    if blob == [] {
      SkipAbsent(g, from, VOCABULARY);
      EncodeFromUnfolds(0, g);
    } else {
      var tag, length := blob[0], FromBigEndian(blob[1..3]);
      var j := TagIndex(tag).value;
      var raw, rest := blob[3..3 + length], blob[3 + length..];
      var v := DecodeValue(j, raw).value;
      LengthFrom(blob[1..3]);
      RawRoundTrip(j, raw);
      WellFormedIsNotNull(j, v);
      assert j >= from;
      var f' := f[NameAt(j) := v];
      DecodedTail(rest, j + 1, f', g);
      assert g[NameAt(j)] == v;
      forall k: nat | from <= k < j ensures !Present(g, k) {
        assert NameAt(k) !in f;
      }
      SkipAbsent(g, from, j);
      EncodeFromUnfolds(j, g);
      PresentField(j, g, raw);
      assert Tlv(tag, raw) + rest == blob;
      forall n | n in g && n !in f ensures from <= NameIndex(n) < VOCABULARY && WellFormed(NameIndex(n), g[n]) {
        if n != NameAt(j) { assert n !in f'; }
      }
    }
  }

  lemma PresentField(j: nat, f: Fields, raw: Bytes)
    requires j < VOCABULARY && Present(f, j) && EncodeValue(j, f[NameAt(j)]) == Ok(raw) && |raw| <= MAX_LEN
    ensures EncodeField(j, f) == Ok(Tlv(TagAt(j), raw))
  {
  }

  lemma LengthFrom(b: Bytes)
    requires |b| == 2
    ensures FromBigEndian(b) <= MAX_LEN && BigEndian(FromBigEndian(b), 2) == b
  {
    LengthFits(0);
    FromBigEndianRoundTrip(b);
  }

  lemma WellFormedIsNotNull(j: nat, v: Value)
    requires WellFormed(j, v)
    ensures v != Null
  {
  }

  lemma DecodeFromNothing(blob: Bytes, g: Fields)
    requires DecodeFrom(blob, -1, map[]) == Ok(g)
    ensures EncodeFrom(0, g) == Ok(blob)
    ensures forall n :: n in g ==> !n.Other? && WellFormed(NameIndex(n), g[n])
  {
    DecodedTail(blob, 0, map[], g);
  }

  /** Whatever a reader accepts re-encodes to the same bytes. */
  lemma DecodedReencodes(blob: Bytes)
    requires Decoding(blob).Ok?
    ensures Encoding(Decoding(blob).value) == Ok(blob)
    ensures Admissible(Decoding(blob).value)
  {
    hide EncodeFrom, DecodeFrom, WellFormed;
    DecodeFromNothing(blob, Decoding(blob).value);
  }

  /** Hence no content has two encodings. */
  lemma DecodingInjective(a: Bytes, b: Bytes)
    requires Decoding(a).Ok? && Decoding(a) == Decoding(b)
    ensures a == b
  {
    DecodedReencodes(a);
    DecodedReencodes(b);
  }

  // ------------------------------------------------------------------
  // Every admissible field map survives the encoding
  // ------------------------------------------------------------------

  function FieldsBelow(f: Fields, from: nat): Fields {
    map n | n in f && NameIndex(n) < from :: f[n]
  }

  lemma {:induction false} EncodedTail(f: Fields, from: nat, last: int)
    requires from <= VOCABULARY
    requires forall n :: n in f ==> !n.Other? && WellFormed(NameIndex(n), f[n])
    requires from < VOCABULARY ==> last < TagAt(from)
    ensures EncodeFrom(from, f).Ok?
    ensures DecodeFrom(EncodeFrom(from, f).value, last, FieldsBelow(f, from)) == Ok(f)
    decreases VOCABULARY - from
  {
    hide DecodeValue, DecodeFrom, EncodeFrom, EncodeValue, WellFormed, NameAt, NameIndex, Tlv;
    if from == VOCABULARY {
      EncodeFromUnfolds(0, f);
      assert FieldsBelow(f, from) == f;
      DecodeFromEmpty(last, f);
    } else {
      EncodeFromUnfolds(from, f);
      var n := NameAt(from);
      if n in f {
        var v := f[n];
        WellFormedIsNotNull(from, v);
        ValueRoundTrip(from, v);
        EncodedTail(f, from + 1, TagAt(from));
        NameOfIndex(f, from);
        assert FieldsBelow(f, from + 1) == FieldsBelow(f, from)[n := v];
        DecodeFromUnfolds(from, EncodeValue(from, v).value, EncodeFrom(from + 1, f).value, last, FieldsBelow(f, from));
      } else {
        EncodedTail(f, from + 1, last);
        NameOfIndex(f, from);
        assert FieldsBelow(f, from + 1) == FieldsBelow(f, from);
        AppendNothing(EncodeFrom(from + 1, f));
      }
    }
  }

  lemma DecodeFromEmpty(last: int, f: Fields)
    ensures DecodeFrom([], last, f) == Ok(f)
  {
  }

  lemma NameOfIndex(f: Fields, j: nat)
    requires j < VOCABULARY
    ensures forall n :: n in f && NameIndex(n) == j ==> n == NameAt(j)
  {
  }

  lemma AdmissibleSurvives(f: Fields)
    requires Admissible(f)
    ensures Encoding(f).Ok? && Decoding(Encoding(f).value) == Ok(f)
  {
    hide EncodeFrom, DecodeFrom, WellFormed;
    EncodedTail(f, 0, -1);
    assert FieldsBelow(f, 0) == map[];
  }

  /** The field maps that survive the encoding are exactly the profile's. */
  lemma SurvivesIffAdmissible(f: Fields)
    ensures Encoding(f).Ok? && Decoding(Encoding(f).value) == Ok(f) <==> Admissible(f)
  {
    if Admissible(f) {
      AdmissibleSurvives(f);
    } else if Encoding(f).Ok? && Decoding(Encoding(f).value) == Ok(f) {
      DecodedReencodes(Encoding(f).value);
    }
  }

  /** What encodes but is not well formed encodes to bytes no reader accepts. */
  lemma {:induction false} IllFormedTail(f: Fields, from: nat, last: int, bad: nat)
    requires from <= bad < VOCABULARY && last < TagAt(from)
    requires forall n :: n in f ==> !n.Other? && f[n] != Null
    requires NameAt(bad) in f && !WellFormed(bad, f[NameAt(bad)])
    requires forall k: nat :: k < bad && NameAt(k) in f ==> WellFormed(k, f[NameAt(k)])
    requires EncodeFrom(from, f).Ok?
    ensures DecodeFrom(EncodeFrom(from, f).value, last, FieldsBelow(f, from)).Err?
    decreases VOCABULARY - from
  {
    hide DecodeValue, DecodeFrom, EncodeFrom, EncodeValue, WellFormed, NameAt, NameIndex, Tlv;
    EncodeFromUnfolds(from, f);
    var n := NameAt(from);
    NameOfIndex(f, from);
    if n in f {
      var v := f[n];
      var raw, rest := EncodeValue(from, v).value, EncodeFrom(from + 1, f).value;
      DecodeFromUnfolds(from, raw, rest, last, FieldsBelow(f, from));
      if from == bad {
        IllFormedValue(from, v);
      } else {
        ValueRoundTrip(from, v);
        IllFormedTail(f, from + 1, TagAt(from), bad);
        assert FieldsBelow(f, from + 1) == FieldsBelow(f, from)[n := v];
      }
    } else {
      IllFormedTail(f, from + 1, last, bad);
      assert FieldsBelow(f, from + 1) == FieldsBelow(f, from);
      AppendNothing(EncodeFrom(from + 1, f));
    }
  }

  lemma IllFormedValue(j: nat, v: Value)
    requires !WellFormed(j, v) && EncodeValue(j, v).Ok? && |EncodeValue(j, v).value| <= MAX_LEN
    ensures DecodeValue(j, EncodeValue(j, v).value).Err?
  {
  }

  /** The fields that carry a value; the others are not encoded. */
  function Stripped(f: Fields): Fields {
    map n | n in f && f[n] != Null :: f[n]
  }

  /** What encodes is read back exactly when its fields that carry a value are the profile's, and then
      as those fields. */
  lemma ReadBackIffAdmissible(f: Fields)
    requires Encoding(f).Ok?
    ensures Decoding(Encoding(f).value).Ok? <==> Admissible(Stripped(f))
    ensures Admissible(Stripped(f)) ==> Decoding(Encoding(f).value) == Ok(Stripped(f))
  {
    hide Admissible, Decoding;
    StrippedEncodesAlike(f);
    ReadBackWithoutNulls(Stripped(f));
    if Admissible(Stripped(f)) { AdmissibleSurvives(Stripped(f)); }
  }

  lemma StrippedEncodesAlike(f: Fields)
    requires Encoding(f).Ok?
    ensures Encoding(Stripped(f)) == Encoding(f)
  {
    hide EncodeFrom;
    StrippedPresence(f);
    StrippedTail(f, 0);
  }

  lemma StrippedPresence(f: Fields)
    ensures forall j: nat :: j < VOCABULARY ==> (Present(f, j) <==> Present(Stripped(f), j))
  {
    hide NameAt;
  }

  lemma {:induction false} StrippedTail(f: Fields, j: nat)
    requires j <= VOCABULARY
    ensures EncodeFrom(j, Stripped(f)) == EncodeFrom(j, f)
    decreases VOCABULARY - j
  {
    hide EncodeFrom, EncodeValue, Tlv, NameAt;
    EncodeFromUnfolds(0, f);
    EncodeFromUnfolds(0, Stripped(f));
    if j < VOCABULARY {
      EncodeFromUnfolds(j, f);
      EncodeFromUnfolds(j, Stripped(f));
      StrippedTail(f, j + 1);
    }
  }

  lemma ReadBackWithoutNulls(f: Fields)
    requires Encoding(f).Ok? && forall n :: n in f ==> f[n] != Null
    ensures Decoding(Encoding(f).value).Ok? <==> Admissible(f)
  {
    hide EncodeFrom, DecodeFrom, WellFormed, NameAt, NameIndex, MissingRequired;
    if Admissible(f) {
      AdmissibleSurvives(f);
    } else if n :| n in f && !WellFormed(NameIndex(n), f[n]) {
      NameAtIndex(n);
      var bad := FirstIllFormed(f, NameIndex(n));
      assert FieldsBelow(f, 0) == map[];
      IllFormedTail(f, 0, -1, bad);
    } else {
      EncodedTail(f, 0, -1);
      assert FieldsBelow(f, 0) == map[];
    }
  }

  lemma {:induction false} FirstIllFormed(f: Fields, at: nat) returns (bad: nat)
    requires at < VOCABULARY && NameAt(at) in f && !WellFormed(at, f[NameAt(at)])
    ensures bad < VOCABULARY && NameAt(bad) in f && !WellFormed(bad, f[NameAt(bad)])
    ensures forall k: nat :: k < bad && NameAt(k) in f ==> WellFormed(k, f[NameAt(k)])
    decreases at
  {
    hide WellFormed, NameAt;
    if k: nat :| k < at && NameAt(k) in f && !WellFormed(k, f[NameAt(k)]) {
      bad := FirstIllFormed(f, k);
    } else {
      bad := at;
    }
  }
}
