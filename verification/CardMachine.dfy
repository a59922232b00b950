/** What a card answers to an APDU, as a function of its state. */
module CardMachine {
  import opened ByteStrings
  import opened Utf8
  import opened CardProfile
  import opened Presentation

  const CLA: byte := 0x80
  const INS_SELECT: byte := 0xA4
  const INS_VERIFY_PIN: byte := 0x20
  const INS_UNBLOCK: byte := 0x2C
  const INS_GET_CARD_OBJECT: byte := 0x30
  const INS_SIGN_CHALLENGE: byte := 0x34
  const INS_GENERATE_KEYPAIR: byte := 0x47
  const INS_PUT_CARD_OBJECT: byte := 0xDA

  const SW_OK: nat := 0x9000
  const SW_WRONG_PIN: nat := 0x63C0
  const SW_BLOCKED: nat := 0x6983
  const SW_SECURITY_NOT_SATISFIED: nat := 0x6982
  const SW_WRONG_LENGTH: nat := 0x6700
  const SW_WRONG_DATA: nat := 0x6A80
  const SW_INS_NOT_SUPPORTED: nat := 0x6D00
  const SW_CLA_NOT_SUPPORTED: nat := 0x6E00
  const SW_CONDITIONS_NOT_SATISFIED: nat := 0x6985
  const SW_ALREADY_PERSONALIZED: nat := 0x6A89

  const MAX_PIN_TRIES := 3
  const MAX_PUK_TRIES := 10

  datatype Slot = Normal | Duress

  datatype Lifecycle = Blank | Personalized

  datatype SlotSigner = SlotSigner(f: (Slot, Bytes) -> Bytes)

  datatype KeyGenerator = KeyGenerator(f: Slot -> Bytes)

  function SlotSign(s: SlotSigner, slot: Slot, body: Bytes): Bytes {
    s.f(slot, body)
  }

  function Generated(g: KeyGenerator, slot: Slot): Bytes {
    g.f(slot)
  }

  /** What a card is made with.  `duress` is the duress PIN, or the comparand in its place. */
  datatype Config = Config(
    normal: Text, duress: Text, puk: Text, secretNormal: Bytes, secretDuress: Option<Bytes>,
    signer: Option<SlotSigner>, generator: Option<KeyGenerator>)

  datatype CardState = CardState(
    selected: bool, unlocked: Option<Slot>, tries: int, pukTries: int,
    cardObject: Option<Bytes>, life: Lifecycle, generated: bool)

  /** A card as it is made. */
  function Made(cardObject: Option<Bytes>): CardState {
    CardState(false, None, MAX_PIN_TRIES, MAX_PUK_TRIES, cardObject, if cardObject.Some? then Personalized else Blank, false)
  }

  function PowerCycled(s: CardState): CardState {
    s.(selected := false, unlocked := None)
  }

  // ------------------------------------------------------------------
  // Framing
  // ------------------------------------------------------------------

  function SwBytes(sw: nat): (r: Bytes)
    ensures |r| == 2
  {
    BigEndian(sw, 2)
  }

  datatype Command = Command(ins: byte, data: Bytes)

  /** The command an APDU carries, or the status word that refuses it.  A zero length byte with
      two more bytes behind it announces an extended length. */
  function Parse(apdu: Bytes): Result<Command, nat> {
    if |apdu| < 4 then Err(SW_WRONG_LENGTH)
    else if apdu[0] != CLA then Err(SW_CLA_NOT_SUPPORTED)
    else if |apdu| == 4 then Ok(Command(apdu[1], []))
    else if apdu[4] == 0 && |apdu| >= 7 then
      var lc := FromBigEndian(apdu[5..7]);
      if |apdu| < 7 + lc then Err(SW_WRONG_LENGTH) else Ok(Command(apdu[1], apdu[7..7 + lc]))
    else
      var lc: int := apdu[4];
      if |apdu| < 5 + lc then Err(SW_WRONG_LENGTH) else Ok(Command(apdu[1], apdu[5..5 + lc]))
  }

  const SELECT_COMMAND: Bytes := [CLA, INS_SELECT, 0x04, 0x00, 0x00]

  /** A command with one length byte is read back, whatever follows its data; behind an empty field the
      two bytes that would announce an extended length must not stand. */
  lemma ShortCommandParses(ins: byte, p1: byte, p2: byte, data: Bytes, tail: Bytes)
    requires |data| <= 0xFF && (data == [] ==> |tail| < 2)
    ensures Parse([CLA, ins, p1, p2, |data|] + data + tail) == Ok(Command(ins, data))
    ensures tail == [] ==> Parse([CLA, ins, p1, p2, |data|] + data) == Ok(Command(ins, data))
  {
    var apdu := [CLA, ins, p1, p2, |data|] + data + tail;
    assert apdu[5..5 + |data|] == data;
    assert tail == [] ==> apdu == [CLA, ins, p1, p2, |data|] + data;
  }

  // ------------------------------------------------------------------
  // Commands
  // ------------------------------------------------------------------

  /** A command's effect: the next state and the response. */
  datatype Effect = Effect(state: CardState, response: Bytes)

  function Status(s: CardState, sw: nat): Effect {
    Effect(s, SwBytes(sw))
  }

  function Answer(s: CardState, payload: Bytes): Effect {
    Effect(s, payload + SwBytes(SW_OK))
  }

  /** What a PIN or PUK field is taken to say: data that is no text counts as one NUL. */
  function Supplied(data: Bytes): Text {
    if IsUtf8(data) then data else [0]
  }

  /** A comparison of two texts, which fails on anything but ASCII. */
  function Compare(a: Text, b: Text): Option<bool> {
    if IsAscii(a) && IsAscii(b) then Some(a == b) else None
  }

  function Select(s: CardState): Effect {
    Answer(s.(selected := true, unlocked := None), SelectPayload(s.tries))
  }

  /** The profile, its version and the tries left. */
  function SelectPayload(tries: int): Bytes {
    DOC_TYPE + [PROFILE_VERSION] + [TriesByte(tries)]
  }

  /** The tries a card announces; they run from 0 to 3. */
  function TriesByte(tries: int): byte {
    if tries < 0 then 0 else if tries > 0xFF then 0xFF else tries
  }

  function VerifyPin(cfg: Config, s: CardState, data: Bytes): Effect {
    if s.tries <= 0 then Status(s, SW_BLOCKED)
    else
      var normalOk, duressOk := Compare(Supplied(data), cfg.normal), Compare(Supplied(data), cfg.duress);
      if normalOk == None || duressOk == None then Status(s, SW_WRONG_DATA)
      else if normalOk.value || duressOk.value then
        Status(s.(unlocked := Some(if duressOk.value then Duress else Normal), tries := MAX_PIN_TRIES), SW_OK)
      else
        Status(s.(unlocked := None, tries := s.tries - 1),
               if s.tries - 1 <= 0 then SW_BLOCKED else SW_WRONG_PIN + (s.tries - 1))
  }

  function Unblock(cfg: Config, s: CardState, data: Bytes): Effect {
    if s.pukTries <= 0 then Status(s, SW_BLOCKED)
    else
      var ok := Compare(Supplied(data), cfg.puk);
      if ok == None then Status(s, SW_WRONG_DATA)
      else if ok.value then Status(s.(tries := MAX_PIN_TRIES, pukTries := MAX_PUK_TRIES), SW_OK)
      else Status(s.(pukTries := s.pukTries - 1), SW_WRONG_PIN + (s.pukTries - 1))
  }

  function GetCardObject(s: CardState): Effect {
    if s.unlocked == None then Status(s, SW_SECURITY_NOT_SATISFIED)
    else if s.cardObject == None then Status(s, SW_CONDITIONS_NOT_SATISFIED)
    else Answer(s, s.cardObject.value)
  }

  function SlotSecret(cfg: Config, slot: Slot): Option<Bytes> {
    if slot == Normal then Some(cfg.secretNormal) else cfg.secretDuress
  }

  function SignChallenge(H: Hash, cfg: Config, s: CardState, data: Bytes): Effect {
    if s.unlocked == None then Status(s, SW_SECURITY_NOT_SATISFIED)
    else if s.cardObject == None then Status(s, SW_CONDITIONS_NOT_SATISFIED)
    else if data == [] then Status(s, SW_WRONG_LENGTH)
    else
      var n: nat := data[0];
      if |data| < 1 + n then Status(s, SW_WRONG_LENGTH)
      else if !IsUtf8(data[1..1 + n]) then Status(s, SW_WRONG_DATA)
      else SignFor(H, cfg, s, s.unlocked.value, data[1..1 + n], data[1 + n..])
  }

  function SignFor(H: Hash, cfg: Config, s: CardState, slot: Slot, scope: Text, challenge: Bytes): Effect {
    var secret := SlotSecret(cfg, slot);
    if secret == None then Status(s, SW_WRONG_DATA)
    else
      var handle := PairwiseHandle(H, secret.value, scope);
      match ResponseBody(challenge, scope, handle)
      case Err(_) => Status(s, SW_WRONG_DATA)
      case Ok(body) =>
        if cfg.signer == None then Status(s, SW_CONDITIONS_NOT_SATISFIED)
        else
          var signature := SlotSign(cfg.signer.value, slot, body);
          if |signature| > MAX_LEN then Status(s, SW_WRONG_DATA)
          else Answer(s, SignedPayload(handle, signature))
  }

  function SignedPayload(handle: Digest, signature: Bytes): Bytes {
    [32] + handle + BigEndian(|signature|, 2) + signature
  }

  /** The card remembers having generated even when a key is too long to report. */
  function GenerateKeypair(cfg: Config, s: CardState): Effect {
    if s.life != Blank || s.generated then Status(s, SW_ALREADY_PERSONALIZED)
    else if cfg.generator == None then Status(s, SW_CONDITIONS_NOT_SATISFIED)
    else
      var normal, duress := Generated(cfg.generator.value, Normal), Generated(cfg.generator.value, Duress);
      var s' := s.(generated := true);
      if |normal| > 0xFF || |duress| > 0xFF then Status(s', SW_WRONG_DATA)
      else Answer(s', KeysPayload(normal, duress))
  }

  function KeysPayload(normal: Bytes, duress: Bytes): Bytes
    requires |normal| <= 0xFF && |duress| <= 0xFF
  {
    [|normal|] + normal + [|duress|] + duress
  }

  function PutCardObject(s: CardState, data: Bytes): Effect {
    if s.life != Blank then Status(s, SW_ALREADY_PERSONALIZED)
    else if Decoding(data).Err? then Status(s, SW_WRONG_DATA)
    else Status(s.(cardObject := Some(data), life := Personalized), SW_OK)
  }

  function Execute(H: Hash, cfg: Config, s: CardState, c: Command): Effect {
    if c.ins == INS_SELECT then Select(s)
    else if !s.selected then Status(s, SW_CONDITIONS_NOT_SATISFIED)
    else if c.ins == INS_VERIFY_PIN then VerifyPin(cfg, s, c.data)
    else if c.ins == INS_UNBLOCK then Unblock(cfg, s, c.data)
    else if c.ins == INS_GET_CARD_OBJECT then GetCardObject(s)
    else if c.ins == INS_SIGN_CHALLENGE then SignChallenge(H, cfg, s, c.data)
    else if c.ins == INS_GENERATE_KEYPAIR then GenerateKeypair(cfg, s)
    else if c.ins == INS_PUT_CARD_OBJECT then PutCardObject(s, c.data)
    else Status(s, SW_INS_NOT_SUPPORTED)
  }

  function Step(H: Hash, cfg: Config, s: CardState, apdu: Bytes): Effect {
    match Parse(apdu)
    case Err(sw) => Status(s, sw)
    case Ok(c) => Execute(H, cfg, s, c)
  }

  // ------------------------------------------------------------------
  // Runs
  // ------------------------------------------------------------------

  datatype Event = Transmit(apdu: Bytes) | PowerCycle

  /** A power cycle answers nothing, which the model writes as the empty response. */
  function After(H: Hash, cfg: Config, s: CardState, e: Event): Effect {
    match e
    case Transmit(apdu) => Step(H, cfg, s, apdu)
    case PowerCycle => Effect(PowerCycled(s), [])
  }

  function Run(H: Hash, cfg: Config, s: CardState, events: seq<Event>): CardState
    decreases |events|
  {
    if events == [] then s else Run(H, cfg, After(H, cfg, s, events[0]).state, events[1..])
  }

  function Responses(H: Hash, cfg: Config, s: CardState, events: seq<Event>): (r: seq<Bytes>)
    ensures |r| == |events|
    decreases |events|
  {
    if events == [] then []
    else
      var e := After(H, cfg, s, events[0]);
      [e.response] + Responses(H, cfg, e.state, events[1..])
  }

  /** The instruction an event carries to the card, if any. */
  predicate Carries(e: Event, ins: byte) {
    e.Transmit? && Parse(e.apdu).Ok? && Parse(e.apdu).value.ins == ins
  }

  predicate IsOk(response: Bytes) {
    |response| >= 2 && response[|response| - 2..] == SwBytes(SW_OK)
  }
}
