/** What a card signs when it is presented. */
module Presentation {
  import opened ByteStrings
  import opened Utf8
  import opened CardProfile

  // "polaris-pairwise/1"
  const HANDLE_PREFIX: Bytes := [
      0x70, 0x6F, 0x6C, 0x61, 0x72, 0x69, 0x73, 0x2D, 0x70, 0x61, 0x69, 0x72,
      0x77, 0x69, 0x73, 0x65, 0x2F, 0x31]

  function PairwiseHandle(H: Hash, secret: Bytes, scope: Text): Digest {
    Sum(H, HANDLE_PREFIX + secret + scope)
  }

  // "polaris-card-response/1"
  const RESPONSE_PREFIX: Bytes := [
      0x70, 0x6F, 0x6C, 0x61, 0x72, 0x69, 0x73, 0x2D, 0x63, 0x61, 0x72, 0x64,
      0x2D, 0x72, 0x65, 0x73, 0x70, 0x6F, 0x6E, 0x73, 0x65, 0x2F, 0x31]
  const MIN_CHALLENGE := 16

  /** The challenge and the scope are length-prefixed; a length past two bytes has no encoding. */
  function ResponseBody(challenge: Bytes, scope: Text, handle: Bytes): Result<Bytes, CardError> {
    if |challenge| < MIN_CHALLENGE then Err(ShortChallenge)
    else if |challenge| > MAX_LEN || |scope| > MAX_LEN then Err(Unencodable)
    else Ok(RESPONSE_PREFIX + Framed(challenge) + Framed(scope) + handle)
  }

  function Framed(b: Bytes): Bytes {
    BigEndian(|b|, 2) + b
  }

  /** What a body is a body of, as a reader that knows the layout takes it apart. */
  datatype Signing = Signing(challenge: Bytes, scope: Bytes, handle: Bytes)

  function ReadBody(body: Bytes): Option<Signing> {
    if |body| < 25 || body[..23] != RESPONSE_PREFIX then None
    else
      var n := Word(body[23], body[24]);
      if |body| < 27 + n then None
      else
        var m := Word(body[25 + n], body[26 + n]);
        if |body| < 27 + n + m then None
        else Some(Signing(body[25..25 + n], body[27 + n..27 + n + m], body[27 + n + m..]))
  }

  /** A body exists for every challenge of 16 bytes or more, as far as the length bytes reach, and says
      challenge, scope and handle in this order. */
  lemma BodyReads(c: Bytes, s: Text, h: Bytes)
    ensures |c| < 16 ==> ResponseBody(c, s, h) == Err(ShortChallenge)
    ensures |c| >= 16 && (|c| > 0xFFFF || |s| > 0xFFFF) ==> ResponseBody(c, s, h) == Err(Unencodable)
    ensures 16 <= |c| <= 0xFFFF && |s| <= 0xFFFF ==>
              && ResponseBody(c, s, h).Ok?
              && ReadBody(ResponseBody(c, s, h).value) == Some(Signing(c, s, h))
  {
    hide IsUtf8, BigEndian, ReadBody, Word;
    if 16 <= |c| <= 0xFFFF && |s| <= 0xFFFF {
      TwoBytes(|c|);
      TwoBytes(|s|);
      LayoutReads(c, s, h, |c| / 0x100, |c| % 0x100, |s| / 0x100, |s| % 0x100);
    }
  }

  lemma LayoutReads(c: Bytes, s: Bytes, h: Bytes, c1: byte, c0: byte, s1: byte, s0: byte)
    requires Word(c1, c0) == |c| && Word(s1, s0) == |s|
    ensures ReadBody(RESPONSE_PREFIX + ([c1, c0] + c) + ([s1, s0] + s) + h) == Some(Signing(c, s, h))
  {
    hide Word;
    var body := RESPONSE_PREFIX + ([c1, c0] + c) + ([s1, s0] + s) + h;
    var n, m := |c|, |s|;
    assert body[..23] == RESPONSE_PREFIX;
    assert body[23] == c1 && body[24] == c0 && body[25..25 + n] == c;
    assert body[25 + n] == s1 && body[26 + n] == s0 && body[27 + n..27 + n + m] == s;
    assert body[27 + n + m..] == h;
  }

  /** No boundary can be shifted: a signed body determines challenge, scope and handle. */
  lemma ResponseBodyInjective(c: Bytes, s: Text, h: Bytes, c': Bytes, s': Text, h': Bytes)
    requires ResponseBody(c, s, h).Ok? && ResponseBody(c, s, h) == ResponseBody(c', s', h')
    ensures c == c' && s == s' && h == h'
  {
    hide ResponseBody, ReadBody, IsUtf8;
    BodyReads(c, s, h);
    BodyReads(c', s', h');
  }

  lemma DropPrefix(p: Bytes, x: Bytes, y: Bytes)
    requires p + x == p + y
    ensures x == y
  {
    assert (p + x)[|p|..] == x && (p + y)[|p|..] == y;
  }

  /** One card shows each reader its own handle.  Two handles are equal exactly when secret and scope,
      run together, are the same string, or when the two strings that were hashed collide. */
  lemma HandlesAgreeIff(H: Hash, s: Bytes, x: Text, s': Bytes, x': Text)
    ensures PairwiseHandle(H, s, x) == PairwiseHandle(H, s', x')
            <==> s + x == s' + x' || Collides(H, {HANDLE_PREFIX + s + x, HANDLE_PREFIX + s' + x'})
  {
    hide IsUtf8;
    var a, b := HANDLE_PREFIX + s + x, HANDLE_PREFIX + s' + x';
    assert a == HANDLE_PREFIX + (s + x) && b == HANDLE_PREFIX + (s' + x');
    if a == b { DropPrefix(HANDLE_PREFIX, s + x, s' + x'); }
  }

  /** One secret is the other followed by a text. */
  ghost predicate Extends(s': Bytes, s: Bytes) {
    exists t: Text :: t != [] && s' == s + t
  }

  /** Handles of two secrets bind them and their scopes: whatever the scopes, one handle means one
      secret and one scope, or a collision. */
  ghost predicate Bind(H: Hash, s: Bytes, s': Bytes) {
    forall x: Text, x': Text :: PairwiseHandle(H, s, x) == PairwiseHandle(H, s', x') ==>
      (s == s' && x == x') || Collides(H, {HANDLE_PREFIX + s + x, HANDLE_PREFIX + s' + x'})
  }

  /** Secret and scope are not delimited, so two secrets bind exactly when neither is the other
      followed by a nonempty text.  Secrets of one length always do. */
  lemma HandlesBindIff(H: Hash, s: Bytes, s': Bytes)
    ensures Bind(H, s, s') <==> !Extends(s', s) && !Extends(s, s')
    ensures |s| == |s'| ==> Bind(H, s, s')
  {
    hide IsUtf8, Collides, PairwiseHandle;
    if t: Text :| t != [] && s' == s + t {
      ExtendedSecret(H, s, t);
    } else if t: Text :| t != [] && s == s' + t {
      ExtendedSecret(H, s', t);
    } else {
      forall x: Text, x': Text | PairwiseHandle(H, s, x) == PairwiseHandle(H, s', x')
        ensures (s == s' && x == x') || Collides(H, {HANDLE_PREFIX + s + x, HANDLE_PREFIX + s' + x'})
      {
        HandlesAgreeIff(H, s, x, s', x');
        if s + x == s' + x' {
          if |s| <= |s'| { Overhang(s, x, s', x'); } else { Overhang(s', x', s, x); }
        }
      }
    }
  }

  /** A text moved from the end of a secret to the front of the scope leaves the handle as it was, with
      no collision. */
  lemma ExtendedSecret(H: Hash, s: Bytes, t: Text)
    requires t != []
    ensures !Bind(H, s, s + t) && !Bind(H, s + t, s)
  {
    var none: Text := [];
    var a, b := HANDLE_PREFIX + s + t, HANDLE_PREFIX + (s + t) + none;
    assert a == b;
    assert PairwiseHandle(H, s, t) == PairwiseHandle(H, s + t, none);
    assert !Collides(H, {a, b}) && !Collides(H, {b, a});
  }

  /** Where one string is read as two secrets with two scopes, the longer secret is the shorter one
      followed by a text. */
  lemma Overhang(s: Bytes, x: Text, s': Bytes, x': Text)
    requires s + x == s' + x' && |s| <= |s'|
    ensures Extends(s', s) || (s == s' && x == x')
  {
    hide IsUtf8;
    var t := s'[|s|..];
    assert s == (s + x)[..|s|] && s' == (s' + x')[..|s'|];
    assert s' == s + t;
    assert s + x == s + (t + x');
    DropPrefix(s, x, t + x');
    CutBeforeText(t, x');
    if t == [] { assert [] + x' == x'; }
  }

  /** Two different secrets of one length give two handles for one scope, or their hashed strings
      collide. */
  lemma OtherSecretOtherHandle(H: Hash, s: Bytes, s': Bytes, x: Text)
    requires |s| == |s'| && s != s'
    ensures PairwiseHandle(H, s, x) != PairwiseHandle(H, s', x) || Collides(H, {HANDLE_PREFIX + s + x, HANDLE_PREFIX + s' + x})
  {
    hide IsUtf8, PairwiseHandle;
    HandlesBindIff(H, s, s');
  }
}
