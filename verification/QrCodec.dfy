/** The QR path: unpadded base64url fields between colons. */
module QrCodec {
  import opened ByteStrings
  import opened Utf8
  import opened VerifierDevice

  const COLON: byte := 0x3A

  // ------------------------------------------------------------------
  // Unpadded base64url (section 5 of RFC 4648)
  // ------------------------------------------------------------------

  type Sextet = v: int | 0 <= v < 64

  function Symbol(v: Sextet): byte {
    if v < 26 then 0x41 + v
    else if v < 52 then 0x61 + (v - 26)
    else if v < 62 then 0x30 + (v - 52)
    else if v == 62 then 0x2D else 0x5F
  }

  function SymbolValue(c: byte): Option<Sextet> {
    if 0x41 <= c <= 0x5A then Some(c - 0x41)
    else if 0x61 <= c <= 0x7A then Some(c - 0x61 + 26)
    else if 0x30 <= c <= 0x39 then Some(c - 0x30 + 52)
    else if c == 0x2D then Some(62)
    else if c == 0x5F then Some(63)
    else None
  }

  lemma SymbolRoundTrip(v: Sextet)
    ensures SymbolValue(Symbol(v)) == Some(v) && Symbol(v) != COLON
  {
  }

  function Sextet0(x: byte): Sextet {
    x / 4
  }

  function Sextet1(x: byte, y: byte): Sextet {
    x % 4 * 16 + y / 16
  }

  function Sextet2(y: byte, z: byte): Sextet {
    y % 16 * 4 + z / 64
  }

  function Sextet3(z: byte): Sextet {
    z % 64
  }

  /** The sextets of a byte string, the last one filled up with zero bits. */
  function Sextets(b: Bytes): seq<Sextet>
    decreases |b|
  {
    if b == [] then []
    else if |b| == 1 then [Sextet0(b[0]), Sextet1(b[0], 0)]
    else if |b| == 2 then [Sextet0(b[0]), Sextet1(b[0], b[1]), Sextet2(b[1], 0)]
    else [Sextet0(b[0]), Sextet1(b[0], b[1]), Sextet2(b[1], b[2]), Sextet3(b[2])] + Sextets(b[3..])
  }

  function Byte0(a: Sextet, b: Sextet): byte {
    var high: int := a;
    high * 4 + b / 16
  }

  function Byte1(b: Sextet, c: Sextet): byte {
    var high: int := b % 16;
    high * 16 + c / 4
  }

  function Byte2(c: Sextet, d: Sextet): byte {
    var high: int := c % 4;
    high * 64 + d
  }

  /** The bytes of a sextet string; bits that fill no byte are dropped, and one sextet alone fills
      none. */
  function FromSextets(v: seq<Sextet>): Option<Bytes>
    decreases |v|
  {
    if v == [] then Some([])
    else if |v| == 1 then None
    else if |v| == 2 then Some([Byte0(v[0], v[1])])
    else if |v| == 3 then Some([Byte0(v[0], v[1]), Byte1(v[1], v[2])])
    else
      match FromSextets(v[4..])
      case None => None
      case Some(rest) => Some([Byte0(v[0], v[1]), Byte1(v[1], v[2]), Byte2(v[2], v[3])] + rest)
  }

  lemma {:induction false} SextetsRoundTrip(b: Bytes)
    ensures FromSextets(Sextets(b)) == Some(b)
    decreases |b|
  {
    hide Sextet0, Sextet1, Sextet2, Sextet3, Byte0, Byte1, Byte2;
    if |b| >= 3 {
      var head := [Sextet0(b[0]), Sextet1(b[0], b[1]), Sextet2(b[1], b[2]), Sextet3(b[2])];
      SextetsRoundTrip(b[3..]);
      assert Sextets(b) == head + Sextets(b[3..]) && Sextets(b)[4..] == Sextets(b[3..]);
      ThreeBytes(b[0], b[1], b[2]);
      assert b == [b[0], b[1], b[2]] + b[3..];
    } else if |b| == 2 {
      ThreeBytes(b[0], b[1], 0);
      assert b == [b[0], b[1]];
    } else if |b| == 1 {
      ThreeBytes(b[0], 0, 0);
      assert b == [b[0]];
    }
  }

  lemma ThreeBytes(x: byte, y: byte, z: byte)
    ensures Byte0(Sextet0(x), Sextet1(x, y)) == x
    ensures Byte1(Sextet1(x, y), Sextet2(y, z)) == y
    ensures Byte2(Sextet2(y, z), Sextet3(z)) == z
  {
  }

  function B64(raw: Bytes): (t: Bytes)
    ensures COLON !in t
  {
    var v := Sextets(raw);
    seq(|v|, i requires 0 <= i < |v| => Symbol(v[i]))
  }

  /** Text with a character outside the alphabet is refused here. */
  function Unb64(t: Bytes): Option<Bytes> {
    if forall i :: 0 <= i < |t| ==> SymbolValue(t[i]).Some? then
      FromSextets(seq(|t|, i requires 0 <= i < |t| => SymbolValue(t[i]).value))
    else None
  }

  lemma B64RoundTrip(raw: Bytes)
    ensures Unb64(B64(raw)) == Some(raw)
  {
    var t, v := B64(raw), Sextets(raw);
    forall i | 0 <= i < |t| ensures SymbolValue(t[i]) == Some(v[i]) { SymbolRoundTrip(v[i]); }
    assert seq(|t|, i requires 0 <= i < |t| => SymbolValue(t[i]).value) == v;
    SextetsRoundTrip(raw);
  }

  // ------------------------------------------------------------------
  // The encoding by its groups
  // ------------------------------------------------------------------

  /** 24 bits, from three bytes. */
  function Bits24(x: int, y: int, z: int): (v: int) {
    0x1_0000 * x + 0x100 * y + z
  }

  /** The symbols of 24 bits, six at a time from the most significant on (section 4 of RFC 4648). */
  function Group(v: int): seq<byte>
    requires 0 <= v < 0x100_0000
  {
    [Symbol(v / 0x40 / 0x40 / 0x40), Symbol(v / 0x40 / 0x40 % 0x40), Symbol(v / 0x40 % 0x40), Symbol(v % 0x40)]
  }

  /** Three bytes are four symbols; one or two bytes at the end are filled up with zeros, and two or three
      symbols are left of their group.  There is no padding. */
  lemma B64IsStandard(raw: Bytes)
    ensures raw == [] ==> B64(raw) == []
    ensures |raw| == 1 ==> B64(raw) == Group(Bits24(raw[0], 0, 0))[..2]
    ensures |raw| == 2 ==> B64(raw) == Group(Bits24(raw[0], raw[1], 0))[..3]
    ensures |raw| >= 3 ==> B64(raw) == Group(Bits24(raw[0], raw[1], raw[2])) + B64(raw[3..])
  {
    hide Symbol, Sextet0, Sextet1, Sextet2, Sextet3;
    if |raw| >= 3 {
      SextetsAreGroup(raw[0], raw[1], raw[2]);
      assert |Sextets(raw)| == 4 + |Sextets(raw[3..])|;
    } else if |raw| == 2 {
      SextetsAreGroup(raw[0], raw[1], 0);
    } else if |raw| == 1 {
      SextetsAreGroup(raw[0], 0, 0);
    }
  }

  lemma SextetsAreGroup(x: byte, y: byte, z: byte)
    ensures var v := Bits24(x, y, z);
            && Sextet0(x) == v / 0x40 / 0x40 / 0x40 && Sextet1(x, y) == v / 0x40 / 0x40 % 0x40
            && Sextet2(y, z) == v / 0x40 % 0x40 && Sextet3(z) == v % 0x40
  {
    var a: int, b: int, c: int, d: int := Sextet0(x), Sextet1(x, y), Sextet2(y, z), Sextet3(z);
    var v := Bits24(x, y, z);
    assert v == 0x40 * (0x40 * (0x40 * a + b) + c) + d;
    hide Sextet0, Sextet1, Sextet2, Sextet3, Bits24;
    LastDigit(0x40 * (0x40 * a + b) + c, d);
    LastDigit(0x40 * a + b, c);
    LastDigit(a, b);
  }

  lemma LastDigit(high: int, low: int)
    requires 0 <= low < 0x40
    ensures (0x40 * high + low) / 0x40 == high && (0x40 * high + low) % 0x40 == low
  {
  }

  /** The alphabet of section 5 of RFC 4648: its letters and digits run on. */
  lemma Alphabet(v: Sextet)
    ensures Symbol(0) == 'A' as int && Symbol(26) == 'a' as int && Symbol(52) == '0' as int
    ensures Symbol(62) == '-' as int && Symbol(63) == '_' as int
    ensures v < 61 && v != 25 && v != 51 ==> Symbol(v + 1) == 1 + Symbol(v)
  {
  }

  // ------------------------------------------------------------------
  // Fields between colons
  // ------------------------------------------------------------------

  function Join(parts: seq<Bytes>): Bytes
    requires parts != []
    decreases |parts|
  {
    if |parts| == 1 then parts[0] else parts[0] + [COLON] + Join(parts[1..])
  }

  function Split(t: Bytes): (parts: seq<Bytes>)
    ensures parts != []
    decreases |t|
  {
    if t == [] then [[]]
    else if t[0] == COLON then [[]] + Split(t[1..])
    else
      var rest := Split(t[1..]);
      [[t[0]] + rest[0]] + rest[1..]
  }

  lemma {:induction false} SplitPart(p: Bytes, rest: Bytes)
    requires COLON !in p
    ensures Split(p + [COLON] + rest) == [p] + Split(rest)
    ensures Split(p) == [p]
    decreases |p|
  {
    if p == [] {
      assert (p + [COLON] + rest)[1..] == rest;
    } else {
      SplitPart(p[1..], rest);
      assert (p + [COLON] + rest)[1..] == p[1..] + [COLON] + rest;
      assert p[0] != COLON && p == [p[0]] + p[1..];
      assert ([p[1..]] + Split(rest))[1..] == Split(rest);
    }
  }

  lemma {:induction false} SplitJoin(parts: seq<Bytes>)
    requires parts != [] && forall p :: p in parts ==> COLON !in p
    ensures Split(Join(parts)) == parts
    decreases |parts|
  {
    if |parts| == 1 {
      SplitPart(parts[0], []);
    } else {
      SplitJoin(parts[1..]);
      SplitPart(parts[0], Join(parts[1..]));
    }
  }

  // ------------------------------------------------------------------
  // The presentation
  // ------------------------------------------------------------------

  const RESPONSE_TAG: Bytes := [0x50, 0x43, 0x52, 0x31]

  function QrResponse(challenge: Bytes, handle: Bytes, signature: Bytes, cardObject: Option<Bytes>): Bytes {
    var parts := [RESPONSE_TAG, B64(challenge), B64(handle), B64(signature)];
    Join(if cardObject.Some? then parts + [B64(cardObject.value)] else parts)
  }

  datatype QrRefusal = NotAPresentation | WrongParts | NotBase64

  function ReadQr(d: Device, payload: Bytes): Result<Presented, QrRefusal> {
    if !(RESPONSE_TAG + [COLON] <= payload) then Err(NotAPresentation)
    else
      var parts := Split(payload);
      if |parts| != 4 && |parts| != 5 then Err(WrongParts)
      else
        var c, h, s := Unb64(parts[1]), Unb64(parts[2]), Unb64(parts[3]);
        var o := if |parts| == 5 then Unb64(parts[4]) else None;
        if c == None || h == None || s == None || (|parts| == 5 && o == None) then Err(NotBase64)
        else Ok(Presented(d.scope, c.value, h.value, s.value, o))
  }

  function Colons(t: Bytes): nat {
    if t == [] then 0 else (if t[0] == 0x3A then 1 else 0) + Colons(t[1..])
  }

  lemma {:induction false} PartsAndColons(t: Bytes)
    ensures |Split(t)| == Colons(t) + 1
    decreases |t|
  {
    if t != [] { PartsAndColons(t[1..]); }
  }

  /** What the phone shows: the tag "PCR1" and the fields, a colon between them; and what the device refuses
      for its shape. */
  lemma QrShape(d: Device, challenge: Bytes, handle: Bytes, signature: Bytes, cardObject: Option<Bytes>, payload: Bytes)
    ensures QrResponse(challenge, handle, signature, cardObject)
            == [0x50, 0x43, 0x52, 0x31] + [0x3A] + (B64(challenge) + [0x3A] + (B64(handle) + [0x3A] + (B64(signature)
               + (if cardObject.Some? then [0x3A] + B64(cardObject.value) else []))))
    ensures ReadQr(d, payload) == Err(NotAPresentation) <==> !([0x50, 0x43, 0x52, 0x31, 0x3A] <= payload)
    ensures ReadQr(d, payload) == Err(WrongParts) <==> [0x50, 0x43, 0x52, 0x31, 0x3A] <= payload && Colons(payload) !in {3, 4}
  {
    hide B64, Unb64, Split;
    assert RESPONSE_TAG + [COLON] == [0x50, 0x43, 0x52, 0x31, 0x3A];
    PartsAndColons(payload);
    var s := B64(signature);
    assert s + [] == s;
    var parts := [RESPONSE_TAG, B64(challenge), B64(handle), s];
    if cardObject.Some? {
      var o := B64(cardObject.value);
      assert s + ([0x3A] + o) == s + [0x3A] + o;
      JoinFive(parts[0], parts[1], parts[2], parts[3], o);
    } else {
      JoinFour(parts[0], parts[1], parts[2], parts[3]);
    }
  }

  lemma JoinFour(a: Bytes, b: Bytes, c: Bytes, d: Bytes)
    ensures Join([a, b, c, d]) == a + [0x3A] + (b + [0x3A] + (c + [0x3A] + d))
  {
    assert [a, b, c, d][1..] == [b, c, d] && [b, c, d][1..] == [c, d] && [c, d][1..] == [d];
    assert Join([d]) == d;
    assert Join([c, d]) == c + [0x3A] + d;
    assert Join([b, c, d]) == b + [0x3A] + Join([c, d]);
  }

  lemma JoinFive(a: Bytes, b: Bytes, c: Bytes, d: Bytes, e: Bytes)
    ensures Join([a, b, c, d] + [e]) == a + [0x3A] + (b + [0x3A] + (c + [0x3A] + (d + [0x3A] + e)))
  {
    JoinFour(b, c, d, e);
    assert ([a, b, c, d] + [e])[1..] == [b, c, d, e];
  }

  /** What the phone shows is what the device reads, byte for byte, with or without a card object. */
  lemma QrRoundTrip(d: Device, challenge: Bytes, handle: Bytes, signature: Bytes, cardObject: Option<Bytes>)
    ensures ReadQr(d, QrResponse(challenge, handle, signature, cardObject))
            == Ok(Presented(d.scope, challenge, handle, signature, cardObject))
  {
    hide B64, Unb64, Split;
    var parts := [RESPONSE_TAG, B64(challenge), B64(handle), B64(signature)];
    var all := if cardObject.Some? then parts + [B64(cardObject.value)] else parts;
    assert forall p :: p in all ==> COLON !in p;
    SplitJoin(all);
    assert Join(all) == RESPONSE_TAG + [COLON] + Join(all[1..]);
    B64RoundTrip(challenge);
    B64RoundTrip(handle);
    B64RoundTrip(signature);
    if cardObject.Some? { B64RoundTrip(cardObject.value); }
  }
}
