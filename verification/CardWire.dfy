/** The card object on the wire: the tags, the order of the records, and which fault a writer or a
    reader reports. */
module CardWire {
  import opened ByteStrings
  import opened Utf8
  import opened CardProfile
  import opened CardCodec
  import opened CardBuilding

  // ------------------------------------------------------------------
  // The format
  // ------------------------------------------------------------------

  /** The tag of each field; none for other names. */
  function TagOf(n: Name): byte {
    match n
    case ProfileVersion => 0x01
    case DocType => 0x02
    case CredentialRef => 0x03
    case IssuingAuthority => 0x04
    case ActivationSequence => 0x05
    case PredecessorRef => 0x06
    case IssuedAt => 0x07
    case ExpiresAt => 0x08
    case CardKeyClassical => 0x09
    case CardKeyPq => 0x0A
    case IssuerSigClassical => 0x20
    case IssuerSigPq => 0x21
    case Other(_) => 0x00
  }

  /** The width of an integer field, and 0 of the others. */
  function WidthOf(n: Name): nat {
    match n
    case ProfileVersion => 1
    case IssuingAuthority => 4
    case ActivationSequence => 4
    case IssuedAt => 8
    case ExpiresAt => 8
    case _ => 0
  }

  /** One record: the tag, the length in two bytes, the high one first, and the value. */
  function Record(tag: byte, value: Bytes): Bytes
    requires |value| <= 0xFFFF
  {
    [tag, |value| / 0x100, |value| % 0x100] + value
  }

  /** The bytes of a value: an integer's digits in base 256, or the bytes it is. */
  function ValueBytes(n: Name, v: Value): Bytes {
    match v
    case Null => []
    case Num(i) => if i >= 0 then BigEndian(i, WidthOf(n)) else []
    case Raw(b) => b
  }

  /** A field's record, if it carries a value that fits one. */
  function RecordOf(f: Fields, n: Name): Bytes {
    if n in f && f[n] != Null && |ValueBytes(n, f[n])| <= 0xFFFF then Record(TagOf(n), ValueBytes(n, f[n])) else []
  }

  lemma NamesAndTags(j: nat)
    requires j < VOCABULARY
    ensures TagAt(j) == TagOf(NameAt(j)) && IntWidth(j) == WidthOf(NameAt(j)) && TagIndex(TagOf(NameAt(j))) == Some(j)
  {
  }

  lemma FieldIsRecord(j: nat, f: Fields)
    requires j < VOCABULARY && EncodeField(j, f).Ok?
    ensures EncodeField(j, f).value == RecordOf(f, NameAt(j))
  {
    NamesAndTags(j);
    hide NameAt, TagAt, IntWidth, TagOf, WidthOf, BigEndian, Limit;
    if Present(f, j) { TwoBytes(|EncodeValue(j, f[NameAt(j)]).value|); }
  }

  lemma FirstField(j: nat, f: Fields)
    requires j < VOCABULARY && EncodeFrom(j, f).Ok?
    ensures EncodeFrom(j + 1, f).Ok? && EncodeFrom(j, f).value == RecordOf(f, NameAt(j)) + EncodeFrom(j + 1, f).value
  {
    hide EncodeFrom, EncodeField, RecordOf, NameAt;
    EncodeFromUnfolds(j, f);
    FieldIsRecord(j, f);
  }

  /** What an encoded object looks like: the records of its fields in this order. */
  lemma WireFormat(f: Fields)
    requires Encoding(f).Ok?
    ensures Encoding(f).value
            == RecordOf(f, ProfileVersion) + (RecordOf(f, DocType) + (RecordOf(f, CredentialRef) + (RecordOf(f, IssuingAuthority)
               + (RecordOf(f, ActivationSequence) + (RecordOf(f, PredecessorRef) + (RecordOf(f, IssuedAt) + (RecordOf(f, ExpiresAt)
               + (RecordOf(f, CardKeyClassical) + (RecordOf(f, CardKeyPq) + (RecordOf(f, IssuerSigClassical)
               + RecordOf(f, IssuerSigPq)))))))))))
  {
    hide EncodeFrom, RecordOf, MissingRequired;
    EncodeFromUnfolds(0, f);
    FirstField(0, f);
    FirstField(1, f);
    FirstField(2, f);
    FirstField(3, f);
    FirstField(4, f);
    FirstField(5, f);
    FirstField(6, f);
    FirstField(7, f);
    FirstField(8, f);
    FirstField(9, f);
    FirstField(10, f);
    FirstField(11, f);
    assert RecordOf(f, IssuerSigPq) + [] == RecordOf(f, IssuerSigPq);
  }

  // ------------------------------------------------------------------
  // What a writer refuses
  // ------------------------------------------------------------------

  predicate Carried(f: Fields, n: Name) {
    n in f && f[n] != Null
  }

  /** All that a card object must say. */
  predicate SaysEnough(f: Fields) {
    && Carried(f, ProfileVersion) && Carried(f, DocType) && Carried(f, CredentialRef) && Carried(f, IssuingAuthority)
    && Carried(f, ActivationSequence) && Carried(f, IssuedAt) && Carried(f, ExpiresAt) && Carried(f, CardKeyClassical)
  }

  lemma MissingIff(f: Fields)
    ensures MissingRequired(f) <==> !SaysEnough(f)
  {
    assert NameAt(0) == ProfileVersion && NameAt(1) == DocType && NameAt(2) == CredentialRef && NameAt(3) == IssuingAuthority;
    assert NameAt(4) == ActivationSequence && NameAt(6) == IssuedAt && NameAt(7) == ExpiresAt && NameAt(8) == CardKeyClassical;
    assert Required(0) && Required(1) && Required(2) && Required(3) && Required(4) && Required(6) && Required(7) && Required(8);
    hide NameAt;
    if j: nat :| j < VOCABULARY && Required(j) && !Present(f, j) {
      assert j == 0 || j == 1 || j == 2 || j == 3 || j == 4 || j == 6 || j == 7 || j == 8;
    }
  }

  /** A value its field cannot hold at all, against one that is only too long for it. */
  predicate Holds(n: Name, v: Value) {
    if WidthOf(n) > 0 then v.Num? && 0 <= v.n < Limit(WidthOf(n)) else v.Raw?
  }

  predicate FitsRecord(n: Name, v: Value) {
    Holds(n, v) && (v.Raw? ==> |v.bytes| <= 0xFFFF)
  }

  /** A writer names a forbidden name first, then an unknown one, then a missing field, and then a field
      that cannot be written. */
  lemma WriterRefuses(f: Fields)
    ensures var forbidden, unknown := (exists n :: n in f && n.Other? && n.name in FORBIDDEN), (exists n :: n in f && n.Other?);
            && (Encoding(f) == Err(Forbidden) <==> forbidden)
            && (Encoding(f) == Err(Unknown) <==> unknown && !forbidden)
            && (Encoding(f) == Err(Missing) <==> !unknown && !SaysEnough(f))
            && (Encoding(f).Ok? <==> !unknown && SaysEnough(f) && forall n :: Carried(f, n) ==> FitsRecord(n, f[n]))
  {
    hide EncodeFrom, FitsRecord, MissingRequired, SaysEnough, Carried;
    MissingIff(f);
    if forall n :: n in f ==> !n.Other? { EncodeFromIff(f); }
  }

  /** Of the fields that cannot be written it names the first in the order of the records: as too long, if
      that is all that is wrong with it. */
  lemma WriterNamesFirst(f: Fields, n: Name)
    requires (forall m :: m in f ==> !m.Other?) && SaysEnough(f)
    requires Carried(f, n) && !FitsRecord(n, f[n])
    requires forall m | Carried(f, m) && TagOf(m) < TagOf(n) :: FitsRecord(m, f[m])
    ensures Encoding(f) == Err(if Holds(n, f[n]) then TooLong else Unencodable)
  {
    hide EncodeFrom, FitsRecord, Holds, MissingRequired, SaysEnough, Carried;
    MissingIff(f);
    assert !n.Other? by { CarriedIsIn(f, n); }
    FirstFault(f, n, 0);
  }

  lemma CarriedIsIn(f: Fields, n: Name)
    requires Carried(f, n)
    ensures n in f && f[n] != Null
  {
  }

  lemma EncodableIff(j: nat, v: Value)
    requires j < VOCABULARY
    ensures Encodable(j, v) <==> FitsRecord(NameAt(j), v)
    ensures EncodeValue(j, v).Ok? <==> Holds(NameAt(j), v)
    ensures EncodeValue(j, v).Err? ==> EncodeValue(j, v).error == Unencodable
  {
    NamesAndTags(j);
    hide NameAt, WidthOf;
  }

  lemma EncodeFromIff(f: Fields)
    requires forall n :: n in f ==> !n.Other?
    ensures EncodeFrom(0, f).Ok? <==> forall n :: Carried(f, n) ==> FitsRecord(n, f[n])
    ensures EncodeFrom(0, f).Err? ==> EncodeFrom(0, f).error in {TooLong, Unencodable}
  {
    hide EncodeFrom, FitsRecord, Encodable, NameAt, NameIndex;
    EncodesIff(0, f);
    ErrorsAre(f, 0);
    forall n | Carried(f, n) ensures NameIndex(n) < VOCABULARY && Lookup(f, NameIndex(n)) == f[n] != Null
                             ensures Encodable(NameIndex(n), f[n]) <==> FitsRecord(n, f[n])
    {
      NameAtIndex(n);
      EncodableIff(NameIndex(n), f[n]);
    }
    forall k: nat | k < VOCABULARY && Lookup(f, k) != Null
      ensures Carried(f, NameAt(k)) && Lookup(f, k) == f[NameAt(k)]
      ensures Encodable(k, Lookup(f, k)) <==> FitsRecord(NameAt(k), f[NameAt(k)])
    {
      EncodableIff(k, Lookup(f, k));
    }
  }

  lemma {:induction false} ErrorsAre(f: Fields, j: nat)
    requires j <= VOCABULARY
    ensures EncodeFrom(j, f).Err? ==> EncodeFrom(j, f).error in {TooLong, Unencodable}
    decreases VOCABULARY - j
  {
    hide EncodeFrom, NameAt;
    EncodeFromUnfolds(0, f);
    if j < VOCABULARY {
      EncodeFromUnfolds(j, f);
      ErrorsAre(f, j + 1);
    }
  }

  lemma {:induction false} FirstFault(f: Fields, n: Name, j: nat)
    requires !n.Other? && j <= NameIndex(n)
    requires Carried(f, n) && !FitsRecord(n, f[n]) && forall m | Carried(f, m) && TagOf(m) < TagOf(n) :: FitsRecord(m, f[m])
    ensures EncodeFrom(j, f) == Err(if Holds(n, f[n]) then TooLong else Unencodable)
    decreases NameIndex(n) - j
  {
    hide EncodeFrom, EncodeField, FitsRecord, Holds, NameAt, TagOf, Carried;
    EncodeFromUnfolds(j, f);
    NameAtIndex(n);
    if j < NameIndex(n) {
      TagsAscend(j, n);
      FieldIfFits(f, j);
      FirstFault(f, n, j + 1);
    } else {
      FieldFault(f, j);
    }
  }

  lemma TagsAscend(j: nat, n: Name)
    requires !n.Other? && j < NameIndex(n)
    ensures TagOf(NameAt(j)) < TagOf(n)
  {
  }

  lemma FieldIfFits(f: Fields, j: nat)
    requires j < VOCABULARY
    requires Carried(f, NameAt(j)) ==> FitsRecord(NameAt(j), f[NameAt(j)])
    ensures EncodeField(j, f).Ok?
  {
    hide FitsRecord, NameAt, Tlv, EncodeValue;
    if Carried(f, NameAt(j)) { FitIsWritten(j, f[NameAt(j)]); }
  }

  lemma FitIsWritten(j: nat, v: Value)
    requires j < VOCABULARY && FitsRecord(NameAt(j), v)
    ensures EncodeValue(j, v).Ok? && |EncodeValue(j, v).value| <= MAX_LEN
  {
    NamesAndTags(j);
    hide NameAt, WidthOf, BigEndian;
  }

  lemma FieldFault(f: Fields, j: nat)
    requires j < VOCABULARY && Carried(f, NameAt(j)) && !FitsRecord(NameAt(j), f[NameAt(j)])
    ensures EncodeField(j, f) == Err(if Holds(NameAt(j), f[NameAt(j)]) then TooLong else Unencodable)
  {
    var v := f[NameAt(j)];
    EncodableIff(j, v);
    NamesAndTags(j);
    hide NameAt, WidthOf, BigEndian;
  }

  // ------------------------------------------------------------------
  // What a reader refuses
  // ------------------------------------------------------------------

  /** Fields a reader has read so far: known names, well-formed values. */
  ghost predicate Readable(f: Fields) {
    forall n :: n in f ==> !n.Other? && WellFormed(NameIndex(n), f[n])
  }

  /** The greatest tag among the fields from the j-th on, or `last` if there is none. */
  function TopTag(f: Fields, j: nat, last: int): int
    requires j <= VOCABULARY
    decreases VOCABULARY - j
  {
    if j == VOCABULARY then last else TopTag(f, j + 1, if NameAt(j) in f then TagAt(j) else last)
  }

  /** The records of readable fields are read back, and reading goes on behind them. */
  lemma {:induction false} ReadsOn(f: Fields, from: nat, last: int, more: Bytes)
    requires from <= VOCABULARY && Readable(f) && (from < VOCABULARY ==> last < TagAt(from))
    ensures EncodeFrom(from, f).Ok?
    ensures DecodeFrom(EncodeFrom(from, f).value + more, last, FieldsBelow(f, from)) == DecodeFrom(more, TopTag(f, from, last), f)
    decreases VOCABULARY - from
  {
    hide DecodeValue, DecodeFrom, EncodeFrom, EncodeValue, WellFormed, NameAt, NameIndex, Tlv;
    if from == VOCABULARY {
      EncodeFromUnfolds(0, f);
      assert FieldsBelow(f, from) == f && [] + more == more;
    } else {
      EncodeFromUnfolds(from, f);
      var n := NameAt(from);
      if n in f {
        var v := f[n];
        NameOfIndex(f, from);
        WellFormedIsNotNull(from, v);
        ValueRoundTrip(from, v);
        ReadsOn(f, from + 1, TagAt(from), more);
        assert FieldsBelow(f, from + 1) == FieldsBelow(f, from)[n := v];
        var head, rest := Tlv(TagAt(from), EncodeValue(from, v).value), EncodeFrom(from + 1, f).value;
        assert (head + rest) + more == head + (rest + more);
        DecodeFromUnfolds(from, EncodeValue(from, v).value, rest + more, last, FieldsBelow(f, from));
      } else {
        ReadsOn(f, from + 1, last, more);
        NameOfIndex(f, from);
        assert FieldsBelow(f, from + 1) == FieldsBelow(f, from);
        AppendNothing(EncodeFrom(from + 1, f));
      }
    }
  }

  /** The name a tag stands for. */
  predicate Tagged(tag: byte, n: Name) {
    !n.Other? && TagOf(n) == tag
  }

  /** The bytes of a value a field can have, by their length, or for a text by what they are. */
  predicate ValueReads(n: Name, raw: Bytes) {
    match n
    case ProfileVersion => |raw| == 1
    case DocType => IsUtf8(raw)
    case CredentialRef => |raw| == 32
    case IssuingAuthority => |raw| == 4
    case ActivationSequence => |raw| == 4
    case PredecessorRef => |raw| == 32
    case IssuedAt => |raw| == 8
    case ExpiresAt => |raw| == 8
    case CardKeyClassical => |raw| == 65
    case CardKeyPq => |raw| == 1952
    case _ => true
  }

  lemma {:induction false} TopTagIs(f: Fields, j: nat, last: int)
    requires j <= VOCABULARY && Readable(f) && (j < VOCABULARY ==> last < TagAt(j))
    ensures TopTag(f, j, last) >= last
    ensures forall n :: n in f && NameIndex(n) >= j ==> TagOf(n) <= TopTag(f, j, last)
    ensures TopTag(f, j, last) == last || exists n :: n in f && TopTag(f, j, last) == TagOf(n)
    decreases VOCABULARY - j
  {
    hide WellFormed, NameAt, NameIndex, TagOf;
    if j < VOCABULARY {
      NamesAndTags(j);
      NameOfIndex(f, j);
      TopTagIs(f, j + 1, if NameAt(j) in f then TagAt(j) else last);
    }
  }

  /** Behind the records of readable fields a reader finds the end, and decides on what it has read, or one
      more record, and names what is wrong with it: no whole record, an unknown tag, a tag it has read,
      a tag out of order, or a value the field cannot have. */
  lemma ReaderNamesFirst(f: Fields, more: Bytes)
    requires Readable(f)
    ensures EncodeFrom(0, f).Ok?
    ensures more == [] ==>
              Decoding(EncodeFrom(0, f).value + more)
              == if !SaysEnough(f) then Err(Missing)
                 else if f[DocType] != Raw(DOC_TYPE) then Err(WrongDocType)
                 else if f[ProfileVersion] != Num(1) then Err(WrongVersion)
                 else Ok(f)
    ensures 0 < |more| < 3 || (|more| >= 3 && |more| < 3 + Word(more[1], more[2])) ==>
              Decoding(EncodeFrom(0, f).value + more) == Err(Truncated)
    ensures |more| >= 3 && |more| >= 3 + Word(more[1], more[2]) && (forall n :: !Tagged(more[0], n)) ==>
              Decoding(EncodeFrom(0, f).value + more) == Err(UnknownTag)
  {
    hide DecodeFrom, EncodeFrom, WellFormed, NameAt, NameIndex, Finish;
    ReadsOn(f, 0, -1, more);
    assert FieldsBelow(f, 0) == map[];
    if more == [] {
      DecodeFromEmpty(TopTag(f, 0, -1), f);
      FinishIs(f);
    } else {
      OneMoreRecord(more, TopTag(f, 0, -1), f);
    }
  }

  /** The same, when the tag of the next record is known. */
  lemma ReaderNamesFault(f: Fields, more: Bytes, n: Name)
    requires Readable(f) && |more| >= 3 && |more| >= 3 + Word(more[1], more[2]) && Tagged(more[0], n)
    ensures EncodeFrom(0, f).Ok?
    ensures var raw := more[3..3 + Word(more[1], more[2])];
            var r := Decoding(EncodeFrom(0, f).value + more);
            && (n in f ==> r == Err(RepeatedTag))
            && (n !in f && (exists m :: m in f && TagOf(m) > more[0]) ==> r == Err(OutOfOrder))
            && (n !in f && (forall m :: m in f ==> TagOf(m) < more[0]) && !ValueReads(n, raw) ==>
                  r == Err(if n == DocType then NotUtf8 else BadLength))
  {
    hide DecodeFrom, EncodeFrom, WellFormed, NameAt, NameIndex, Finish, TagOf, ValueReads;
    ReadsOn(f, 0, -1, more);
    assert FieldsBelow(f, 0) == map[];
    var last := TopTag(f, 0, -1);
    TopTagIs(f, 0, -1);
    OneMoreRecord(more, last, f);
    KnownRecord(more, last, f, n);
    if n !in f { DifferentTags(f, n); }
  }

  lemma DifferentTags(f: Fields, n: Name)
    requires Readable(f) && !n.Other? && n !in f
    ensures forall m :: m in f ==> TagOf(m) != TagOf(n)
  {
    hide WellFormed;
  }

  lemma FinishIs(f: Fields)
    ensures Finish(f) == if !SaysEnough(f) then Err(Missing)
                         else if f[DocType] != Raw(DOC_TYPE) then Err(WrongDocType)
                         else if f[ProfileVersion] != Num(1) then Err(WrongVersion)
                         else Ok(f)
  {
    MissingIff(f);
    assert NameAt(1) == DocType && NameAt(0) == ProfileVersion;
    hide MissingRequired, NameAt;
  }

  lemma TagIndexIs(tag: byte)
    ensures TagIndex(tag) == None <==> forall n :: !Tagged(tag, n)
    ensures forall n :: Tagged(tag, n) ==> TagIndex(tag).Some? && NameAt(TagIndex(tag).value) == n
  {
    if TagIndex(tag).Some? { NamesAndTags(TagIndex(tag).value); assert Tagged(tag, NameAt(TagIndex(tag).value)); }
  }

  lemma OneMoreRecord(more: Bytes, last: int, f: Fields)
    requires more != []
    ensures |more| < 3 || |more| < 3 + Word(more[1], more[2]) ==> DecodeFrom(more, last, f) == Err(Truncated)
    ensures |more| >= 3 && |more| >= 3 + Word(more[1], more[2]) && (forall n :: !Tagged(more[0], n)) ==>
              DecodeFrom(more, last, f) == Err(UnknownTag)
  {
    hide FromBigEndian, NameAt, DecodeValue, Word, TagIndex;
    TagIndexIs(more[0]);
    if |more| >= 3 { WordReads(more[1..3]); }
  }

  lemma KnownRecord(more: Bytes, last: int, f: Fields, n: Name)
    requires |more| >= 3 && |more| >= 3 + Word(more[1], more[2]) && Tagged(more[0], n)
    ensures n in f ==> DecodeFrom(more, last, f) == Err(RepeatedTag)
    ensures n !in f && more[0] <= last ==> DecodeFrom(more, last, f) == Err(OutOfOrder)
    ensures n !in f && more[0] > last && !ValueReads(n, more[3..3 + Word(more[1], more[2])]) ==>
              DecodeFrom(more, last, f) == Err(if n == DocType then NotUtf8 else BadLength)
  {
    hide FromBigEndian, NameAt, DecodeValue, Word, TagIndex, ValueReads, Tagged;
    TagIndexIs(more[0]);
    WordReads(more[1..3]);
    ValueReadsIff(TagIndex(more[0]).value, more[3..3 + Word(more[1], more[2])]);
  }

  lemma ValueReadsIff(j: nat, raw: Bytes)
    requires j < VOCABULARY
    ensures DecodeValue(j, raw).Ok? <==> ValueReads(NameAt(j), raw)
    ensures DecodeValue(j, raw).Err? ==> DecodeValue(j, raw).error == if NameAt(j) == DocType then NotUtf8 else BadLength
  {
    hide IsUtf8, FromBigEndian;
  }

  /** Every other record it reads: the byte string begins with the records of the fields read so far and of
      this one. */
  lemma ReaderReadsOn(f: Fields, more: Bytes, n: Name) returns (v: Value)
    requires Readable(f) && |more| >= 3 && |more| >= 3 + Word(more[1], more[2]) && Tagged(more[0], n)
    requires n !in f && (forall m :: m in f ==> TagOf(m) < more[0]) && ValueReads(n, more[3..3 + Word(more[1], more[2])])
    ensures Readable(f[n := v]) && EncodeFrom(0, f).Ok? && EncodeFrom(0, f[n := v]).Ok?
    ensures EncodeFrom(0, f).value + more == EncodeFrom(0, f[n := v]).value + more[3 + Word(more[1], more[2])..]
  {
    hide *;
    TagIndexIs(more[0]);
    var j := TagIndex(more[0]).value;
    var length := Word(more[1], more[2]);
    var raw, rest := more[3..3 + length], more[3 + length..];
    ValueReadsIff(j, raw);
    LengthIsShort(length);
    RawRoundTrip(j, raw);
    v := DecodeValue(j, raw).value;
    NameIsAt(j, n);
    TaggedIs(more[0], n);
    ReadableExtends(f, n, v);
    forall k: nat | j <= k < VOCABULARY ensures NameAt(k) !in f { HigherIsAbsent(f, j, k); }
    ReadsOn(f, 0, -1, more);
    WellFormedIsNotNull(j, v);
    ExtendsEncoding(f, j, v, raw, 0);
    RecordSplits(more, j);
    assert EncodeFrom(0, f).value + (Tlv(TagAt(j), raw) + rest) == EncodeFrom(0, f).value + Tlv(TagAt(j), raw) + rest;
  }

  lemma LengthIsShort(n: nat)
    ensures n < 0x10000 <==> n <= MAX_LEN
  {
  }

  lemma TaggedIs(tag: byte, n: Name)
    requires Tagged(tag, n)
    ensures TagOf(n) == tag
  {
  }

  lemma ReadableExtends(f: Fields, n: Name, v: Value)
    requires Readable(f) && !n.Other? && WellFormed(NameIndex(n), v)
    ensures Readable(f[n := v])
  {
    hide WellFormed, NameIndex;
  }

  lemma NameIsAt(j: nat, n: Name)
    requires j < VOCABULARY && NameAt(j) == n
    ensures NameIndex(n) == j && !n.Other? && TagOf(n) == TagAt(j)
  {
  }

  lemma HigherIsAbsent(f: Fields, j: nat, k: nat)
    requires j <= k < VOCABULARY && forall m :: m in f ==> TagOf(m) < TagAt(j)
    ensures NameAt(k) !in f
  {
    NamesAndTags(k);
    assert TagAt(j) <= TagAt(k);
  }

  lemma RecordSplits(more: Bytes, j: nat)
    requires j < VOCABULARY && |more| >= 3 && more[0] == TagAt(j) && |more| >= 3 + Word(more[1], more[2])
    ensures var length := Word(more[1], more[2]); more == Tlv(TagAt(j), more[3..3 + length]) + more[3 + length..]
  {
    hide Word, TagAt;
    WordReads(more[1..3]);
    FromBigEndianRoundTrip(more[1..3]);
    assert more == [more[0]] + more[1..3] + more[3..];
  }

  lemma {:induction false} ExtendsEncoding(f: Fields, j: nat, v: Value, raw: Bytes, from: nat)
    requires from <= j < VOCABULARY && EncodeFrom(from, f).Ok?
    requires forall k: nat :: j <= k < VOCABULARY ==> NameAt(k) !in f
    requires v != Null && EncodeValue(j, v) == Ok(raw) && |raw| <= MAX_LEN
    ensures EncodeFrom(from, f[NameAt(j) := v]).Ok?
    ensures EncodeFrom(from, f[NameAt(j) := v]).value == EncodeFrom(from, f).value + Tlv(TagAt(j), raw)
    decreases j - from
  {
    hide EncodeFrom, EncodeValue, NameAt, TagAt, Tlv;
    var g := f[NameAt(j) := v];
    EncodeFromUnfolds(from, f);
    EncodeFromUnfolds(from, g);
    if from == j {
      SkipAbsent(f, j, VOCABULARY);
      forall k: nat | j + 1 <= k < VOCABULARY ensures !Present(g, k) { NamesDiffer(j, k); }
      SkipAbsent(g, j + 1, VOCABULARY);
      PresentField(j, g, raw);
      AppendNothing(EncodeField(j, g));
      assert [] + Tlv(TagAt(j), raw) == Tlv(TagAt(j), raw);
    } else {
      NamesDiffer(from, j);
      assert EncodeField(from, g) == EncodeField(from, f);
      ExtendsEncoding(f, j, v, raw, from + 1);
      AppendAssociates(EncodeField(from, f), EncodeFrom(from + 1, f), Ok(Tlv(TagAt(j), raw)));
    }
  }

  lemma NamesDiffer(j: nat, k: nat)
    requires j < VOCABULARY && k < VOCABULARY && j != k
    ensures NameAt(j) != NameAt(k)
  {
  }
}
