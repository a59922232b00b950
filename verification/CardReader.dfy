/** The reader's side of the wire: command builders and response parsers, each inverse to what the
    card does with it. */
module CardReader {
  import opened ByteStrings
  import opened Utf8
  import opened CardProfile
  import opened CardMachine
  import opened CardRuns

  /** A builder refuses what does not fit its length bytes. */
  datatype BuildError = DoesNotFit

  const GENERATE_COMMAND: Bytes := [CLA, INS_GENERATE_KEYPAIR, 0x00, 0x00, 0x00]
  const GET_COMMAND: Bytes := [CLA, INS_GET_CARD_OBJECT, 0x00, 0x00, 0x00]

  function VerifyPinCommand(pin: Text): Result<Bytes, BuildError> {
    if |pin| > 0xFF then Err(DoesNotFit) else Ok([CLA, INS_VERIFY_PIN, 0x00, 0x80, |pin|] + pin)
  }

  function UnblockCommand(puk: Text): Result<Bytes, BuildError> {
    if |puk| > 0xFF then Err(DoesNotFit) else Ok([CLA, INS_UNBLOCK, 0x00, 0x80, |puk|] + puk)
  }

  function PutCommand(cardObject: Bytes): Result<Bytes, BuildError> {
    if |cardObject| > MAX_LEN then Err(DoesNotFit)
    else Ok([CLA, INS_PUT_CARD_OBJECT, 0x00, 0x00, 0x00] + BigEndian(|cardObject|, 2) + cardObject)
  }

  function SignData(scope: Text, challenge: Bytes): Bytes
    requires |scope| <= 0xFF
  {
    [|scope|] + scope + challenge
  }

  function SignCommand(scope: Text, challenge: Bytes): Result<Bytes, BuildError> {
    if |scope| > 0xFF then Err(DoesNotFit)
    else
      var data := SignData(scope, challenge);
      if |data| > 0xFF then Err(DoesNotFit) else Ok([CLA, INS_SIGN_CHALLENGE, 0x00, 0x00, |data|] + data)
  }

  function Payload(response: Bytes): Bytes {
    if |response| < 2 then [] else response[..|response| - 2]
  }

  datatype Signed = Signed(handle: Bytes, signature: Bytes)

  function ParseSigned(response: Bytes): Option<Signed> {
    if !IsOk(response) || Payload(response) == [] then None
    else
      var body := Payload(response);
      var h: int := body[0];
      if |body| < 1 + h + 2 then None
      else
        var n := FromBigEndian(body[1 + h..3 + h]);
        if |body| < 3 + h + n then None else Some(Signed(body[1..1 + h], body[3 + h..3 + h + n]))
  }

  datatype PublicKeys = PublicKeys(normal: Bytes, duress: Bytes)

  function ParseKeys(response: Bytes): Option<PublicKeys> {
    if !IsOk(response) || Payload(response) == [] then None
    else
      var body := Payload(response);
      var n: int := body[0];
      if |body| < 1 + n + 1 then None
      else
        var d: int := body[1 + n];
        if |body| < 2 + n + d then None else Some(PublicKeys(body[1..1 + n], body[2 + n..2 + n + d]))
  }

  /** What the reader sends, byte for byte. */
  lemma CommandBytes(pin: Text, cardObject: Bytes, scope: Text, challenge: Bytes)
    ensures SELECT_COMMAND == [0x80, 0xA4, 0x04, 0x00, 0x00]
    ensures GENERATE_COMMAND == [0x80, 0x47, 0x00, 0x00, 0x00] && GET_COMMAND == [0x80, 0x30, 0x00, 0x00, 0x00]
    ensures VerifyPinCommand(pin) == if |pin| > 0xFF then Err(DoesNotFit) else Ok([0x80, 0x20, 0x00, 0x80, |pin|] + pin)
    ensures UnblockCommand(pin) == if |pin| > 0xFF then Err(DoesNotFit) else Ok([0x80, 0x2C, 0x00, 0x80, |pin|] + pin)
    ensures PutCommand(cardObject)
            == if |cardObject| > 0xFFFF then Err(DoesNotFit)
               else Ok([0x80, 0xDA, 0x00, 0x00, 0x00, |cardObject| / 0x100, |cardObject| % 0x100] + cardObject)
    ensures SignCommand(scope, challenge)
            == if 1 + |scope| + |challenge| > 0xFF then Err(DoesNotFit)
               else Ok([0x80, 0x34, 0x00, 0x00, 1 + |scope| + |challenge|, |scope|] + scope + challenge)
  {
    hide IsUtf8, BigEndian;
    if |cardObject| <= 0xFFFF {
      TwoBytes(|cardObject|);
      var high, low := |cardObject| / 0x100, |cardObject| % 0x100;
      assert [0x80, 0xDA, 0x00, 0x00, 0x00] + [high, low] + cardObject == [0x80, 0xDA, 0x00, 0x00, 0x00, high, low] + cardObject;
    }
    if 1 + |scope| + |challenge| <= 0xFF {
      assert [0x80, 0x34, 0x00, 0x00, 1 + |scope| + |challenge|] + SignData(scope, challenge)
          == [0x80, 0x34, 0x00, 0x00, 1 + |scope| + |challenge|, |scope|] + scope + challenge;
    }
  }

  // ------------------------------------------------------------------
  // The card reads what the reader builds
  // ------------------------------------------------------------------

  lemma FixedCommandsParse()
    ensures Parse(SELECT_COMMAND) == Ok(Command(INS_SELECT, []))
    ensures Parse(GENERATE_COMMAND) == Ok(Command(INS_GENERATE_KEYPAIR, []))
    ensures Parse(GET_COMMAND) == Ok(Command(INS_GET_CARD_OBJECT, []))
  {
    assert SELECT_COMMAND[5..5] == [] && GENERATE_COMMAND[5..5] == [] && GET_COMMAND[5..5] == [];
  }

  lemma PutCommandParses(cardObject: Bytes)
    requires |cardObject| <= MAX_LEN
    ensures Parse(PutCommand(cardObject).value) == Ok(Command(INS_PUT_CARD_OBJECT, cardObject))
  {
    var apdu := PutCommand(cardObject).value;
    assert Limit(2) == 0x100 * Limit(1) && Limit(1) == 0x100 * Limit(0);
    BigEndianRoundTrip(|cardObject|, 2);
    assert apdu[5..7] == BigEndian(|cardObject|, 2);
    assert apdu[7..7 + |cardObject|] == cardObject;
  }

  // ------------------------------------------------------------------
  // The reader reads what the card answers
  // ------------------------------------------------------------------

  lemma SignedResponseParses(handle: Digest, signature: Bytes)
    requires |signature| <= MAX_LEN
    ensures ParseSigned(SignedPayload(handle, signature) + SwBytes(SW_OK)) == Some(Signed(handle, signature))
  {
    hide SwBytes, BigEndian, ParseSigned;
    var body := SignedPayload(handle, signature);
    TwoBytes(|signature|);
    PayloadOfAnswer(body);
    ParseSignedIff(body + SwBytes(SW_OK), handle, signature);
  }

  lemma KeysResponseParses(normal: Bytes, duress: Bytes)
    requires |normal| <= 0xFF && |duress| <= 0xFF
    ensures ParseKeys(KeysPayload(normal, duress) + SwBytes(SW_OK)) == Some(PublicKeys(normal, duress))
  {
    hide SwBytes, ParseKeys;
    PayloadOfAnswer(KeysPayload(normal, duress));
    ParseKeysIff(KeysPayload(normal, duress) + SwBytes(SW_OK), normal, duress);
  }

  lemma PayloadOfAnswer(payload: Bytes)
    ensures Payload(payload + SwBytes(SW_OK)) == payload && AnswersWith(payload + SwBytes(SW_OK), payload)
  {
    TwoBytes(SW_OK);
  }

  // ------------------------------------------------------------------
  // And nothing else
  // ------------------------------------------------------------------

  /** A response answers: payload, then the two status bytes of success. */
  predicate AnswersWith(response: Bytes, payload: Bytes) {
    response == payload + [0x90, 0x00]
  }

  lemma OkIff(response: Bytes)
    ensures IsOk(response) <==> |response| >= 2 && AnswersWith(response, Payload(response))
  {
    TwoBytes(SW_OK);
    assert SwBytes(SW_OK) == [0x90, 0x00];
    if |response| >= 2 { assert response == Payload(response) + response[|response| - 2..]; }
  }

  /** Handle and signature, each behind its length. */
  function SignedText(handle: Bytes, signature: Bytes): Bytes
    requires |handle| <= 0xFF && |signature| <= 0xFFFF
  {
    [|handle|] + handle + [|signature| / 0x100, |signature| % 0x100] + signature
  }

  /** A reader takes handle and signature from exactly the answers that begin with them, each behind its
      length, whatever follows. */
  lemma ParseSignedIff(response: Bytes, handle: Bytes, signature: Bytes)
    ensures ParseSigned(response) == Some(Signed(handle, signature))
            <==> && |response| >= 2 && AnswersWith(response, Payload(response))
                 && |handle| <= 0xFF && |signature| <= 0xFFFF && SignedText(handle, signature) <= Payload(response)
  {
    hide IsOk, FromBigEndian, Payload, AnswersWith;
    OkIff(response);
    var body := Payload(response);
    if IsOk(response) && |handle| <= 0xFF && |signature| <= 0xFFFF && SignedText(handle, signature) <= body {
      TwoBytes(|signature|);
      var rest := body[|SignedText(handle, signature)|..];
      assert body == SignedText(handle, signature) + rest;
      SignedReads(handle, signature, |signature| / 0x100, |signature| % 0x100, rest);
    } else if ParseSigned(response) == Some(Signed(handle, signature)) {
      var h: int := body[0];
      WordReads(body[1 + h..3 + h]);
      WordIs(body[1 + h], body[2 + h]);
      SignedSplits(body, h, |signature|);
    }
  }

  lemma SignedReads(handle: Bytes, signature: Bytes, high: byte, low: byte, rest: Bytes)
    requires |handle| <= 0xFF && Word(high, low) == |signature|
    ensures var body, h := [|handle|] + handle + [high, low] + signature + rest, |handle|;
            && |body| >= 3 + h + |signature| && body[0] == h && FromBigEndian(body[1 + h..3 + h]) == |signature|
            && body[1..1 + h] == handle && body[3 + h..3 + h + |signature|] == signature
  {
    hide Word, FromBigEndian;
    var body, h := [|handle|] + handle + [high, low] + signature + rest, |handle|;
    assert body[1 + h..3 + h] == [high, low];
    WordReads([high, low]);
    assert body[1..1 + h] == handle;
    assert body[3 + h..3 + h + |signature|] == signature;
  }

  lemma SignedSplits(body: Bytes, h: nat, n: nat)
    requires |body| >= 3 + h + n && body[0] == h && h <= 0xFF
    requires body[1 + h] == n / 0x100 && body[2 + h] == n % 0x100
    ensures [h] + body[1..1 + h] + [n / 0x100, n % 0x100] + body[3 + h..3 + h + n] <= body
  {
    assert [h] + body[1..1 + h] + [n / 0x100, n % 0x100] + body[3 + h..3 + h + n] == body[..3 + h + n];
  }

  lemma WordIs(high: byte, low: byte)
    ensures Word(high, low) / 0x100 == high && Word(high, low) % 0x100 == low
  {
  }

  /** And the two public keys likewise. */
  lemma ParseKeysIff(response: Bytes, normal: Bytes, duress: Bytes)
    ensures ParseKeys(response) == Some(PublicKeys(normal, duress))
            <==> && |response| >= 2 && AnswersWith(response, Payload(response))
                 && |normal| <= 0xFF && |duress| <= 0xFF
                 && [|normal|] + normal + [|duress|] + duress <= Payload(response)
  {
    hide IsOk, Payload, AnswersWith;
    OkIff(response);
    var body := Payload(response);
    if IsOk(response) && |normal| <= 0xFF && |duress| <= 0xFF && [|normal|] + normal + [|duress|] + duress <= body {
      var rest := body[|[|normal|] + normal + [|duress|] + duress|..];
      assert body == [|normal|] + normal + [|duress|] + duress + rest;
      KeysRead(normal, duress, rest);
    } else if ParseKeys(response) == Some(PublicKeys(normal, duress)) {
      KeysSplit(body, body[0], body[1 + |normal|]);
    }
  }

  lemma KeysRead(normal: Bytes, duress: Bytes, rest: Bytes)
    requires |normal| <= 0xFF && |duress| <= 0xFF
    ensures var body, n := [|normal|] + normal + [|duress|] + duress + rest, |normal|;
            && |body| >= 2 + n + |duress| && body[0] == n && body[1 + n] == |duress|
            && body[1..1 + n] == normal && body[2 + n..2 + n + |duress|] == duress
  {
    var body, n := [|normal|] + normal + [|duress|] + duress + rest, |normal|;
    assert body[1..1 + n] == normal;
    assert body[2 + n..2 + n + |duress|] == duress;
  }

  lemma KeysSplit(body: Bytes, n: nat, d: nat)
    requires n <= 0xFF && d <= 0xFF && |body| >= 2 + n + d && body[0] == n && body[1 + n] == d
    ensures [n] + body[1..1 + n] + [d] + body[2 + n..2 + n + d] <= body
  {
    assert [n] + body[1..1 + n] + [d] + body[2 + n..2 + n + d] == body[..2 + n + d];
  }
}
