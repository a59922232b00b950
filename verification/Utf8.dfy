/** UTF-8 as RFC 3629, section 4, defines it: what a strict decoder accepts. */
module Utf8 {
  import opened ByteStrings

  predicate IsContinuation(b: byte) {
    0x80 <= b < 0xC0
  }

  /** The length of the character the bytes start with, or 0 when they start with none. */
  function CharLength(b: Bytes): (n: nat)
    requires b != []
    ensures n <= |b|
  {
    if b[0] < 0x80 then 1
    else if 0xC2 <= b[0] <= 0xDF && |b| >= 2 && IsContinuation(b[1]) then 2
    else if && 0xE0 <= b[0] <= 0xEF && |b| >= 3 && IsContinuation(b[1]) && IsContinuation(b[2])
            && (b[0] == 0xE0 ==> b[1] >= 0xA0) && (b[0] == 0xED ==> b[1] < 0xA0) then 3
    else if && 0xF0 <= b[0] <= 0xF4 && |b| >= 4 && IsContinuation(b[1]) && IsContinuation(b[2]) && IsContinuation(b[3])
            && (b[0] == 0xF0 ==> b[1] >= 0x90) && (b[0] == 0xF4 ==> b[1] < 0x90) then 4
    else 0
  }

  predicate IsUtf8(b: Bytes) {
    b == [] || (CharLength(b) > 0 && IsUtf8(b[CharLength(b)..]))
  }

  predicate IsAscii(b: Bytes) {
    forall i :: 0 <= i < |b| ==> b[i] < 0x80
  }

  /** A text is the bytes that encode it. */
  type Text = b: Bytes | IsUtf8(b)

  /** The number of characters of a text. */
  function Characters(t: Text): (n: nat)
    decreases |t|
  {
    if t == [] then 0 else 1 + Characters(t[CharLength(t)..])
  }

  lemma {:induction false} AsciiCharacters(t: Text)
    requires IsAscii(t)
    ensures Characters(t) == |t|
    decreases |t|
  {
    if t != [] { AsciiCharacters(t[1..]); }
  }

  lemma {:induction false} AsciiIsUtf8(b: Bytes)
    requires IsAscii(b)
    ensures IsUtf8(b)
  {
    if b != [] { AsciiIsUtf8(b[1..]); }
  }

  /** A text cut in two at the start of another text is two texts: no character spans the cut. */
  lemma {:induction false} CutBeforeText(a: Bytes, b: Text)
    requires IsUtf8(a + b)
    ensures IsUtf8(a)
    decreases |a|
  {
    var n := if a + b == [] then 0 else CharLength(a + b);
    if b == [] {
      assert a + b == a;
    } else if a != [] {
      assert (a + b)[|a|] == b[0] && !IsContinuation(b[0]);
      assert CharLength(a) == n;
      assert (a + b)[n..] == a[n..] + b;
      CutBeforeText(a[n..], b);
    }
  }

  // ------------------------------------------------------------------
  // Texts are sequences of characters
  // ------------------------------------------------------------------

  /** A Unicode scalar value: a code point that is no surrogate. */
  type Scalar = c: int | 0 <= c < 0x110000 && !(0xD800 <= c < 0xE000)

  /** The bytes of one character, by the table of RFC 3629, section 3. */
  function EncodeScalar(c: Scalar): (b: Bytes)
    ensures b != []
  {
    var n: int := c;
    if n < 0x80 then [n]
    else if n < 0x800 then [0xC0 + n / 0x40, 0x80 + n % 0x40]
    else if n < 0x10000 then [0xE0 + n / 0x40 / 0x40, 0x80 + n / 0x40 % 0x40, 0x80 + n % 0x40]
    else [0xF0 + n / 0x40 / 0x40 / 0x40, 0x80 + n / 0x40 / 0x40 % 0x40, 0x80 + n / 0x40 % 0x40, 0x80 + n % 0x40]
  }

  function EncodeAll(cs: seq<Scalar>): Bytes {
    if cs == [] then [] else EncodeScalar(cs[0]) + EncodeAll(cs[1..])
  }

  /** Every character is read with exactly its bytes, whatever follows. */
  lemma CharacterReads(c: Scalar, rest: Bytes)
    ensures CharLength(EncodeScalar(c) + rest) == |EncodeScalar(c)|
    ensures (EncodeScalar(c) + rest)[|EncodeScalar(c)|..] == rest
  {
  }

  /** And what is read as a character is one. */
  lemma ReadIsCharacter(b: Bytes) returns (c: Scalar)
    requires b != [] && CharLength(b) > 0
    ensures EncodeScalar(c) == b[..CharLength(b)]
  {
    var n := CharLength(b);
    var x: int := b[0];
    if n == 1 {
      c := x;
      assert b[..1] == [x];
    } else if n == 2 {
      c := Join(x - 0xC0, b[1]);
      assert b[..2] == [x, b[1]];
    } else if n == 3 {
      var high := Join(x - 0xE0, b[1]);
      c := Join(high, b[2]);
      assert b[..3] == [x, b[1], b[2]];
    } else {
      var high := Join(x - 0xF0, b[1]);
      var middle := Join(high, b[2]);
      c := Join(middle, b[3]);
      assert b[..4] == [x, b[1], b[2], b[3]];
    }
  }

  /** Six more bits from a continuation byte. */
  lemma Join(high: nat, b: byte) returns (n: nat)
    requires IsContinuation(b)
    ensures n / 0x40 == high && 0x80 + n % 0x40 == b && n == 0x40 * high + (b - 0x80)
  {
    n := 0x40 * high + (b - 0x80);
  }

  /** The characters of a text. */
  lemma {:induction false} TextIsCharacters(t: Text) returns (cs: seq<Scalar>)
    ensures t == EncodeAll(cs) && Characters(t) == |cs|
    decreases |t|
  {
    if t == [] {
      cs := [];
    } else {
      var c := ReadIsCharacter(t);
      var rest := TextIsCharacters(t[CharLength(t)..]);
      cs := [c] + rest;
      assert cs[1..] == rest;
    }
  }

  lemma {:induction false} CharactersAreText(cs: seq<Scalar>)
    ensures IsUtf8(EncodeAll(cs))
    decreases |cs|
  {
    if cs != [] {
      CharactersAreText(cs[1..]);
      CharacterReads(cs[0], EncodeAll(cs[1..]));
    }
  }

  /** A byte string is a text exactly when it is some characters, one after the other. */
  lemma TextIff(b: Bytes)
    ensures IsUtf8(b) <==> exists cs :: b == EncodeAll(cs)
  {
    if IsUtf8(b) {
      var cs := TextIsCharacters(b);
    } else if cs :| b == EncodeAll(cs) {
      CharactersAreText(cs);
    }
  }
}
