# Polaris: logs, cards and verifier devices

This project models the part of Polaris that turns records into evidence. It has five pieces.

- **Transparency log** (`TransparencyLog`, `LogVerifier`, `LogTheorems`, `LogMonitor`). The recursive RFC 6962 log of the
  application and the bit-shifting verifier that ships beside it. The verifier's loops are proved equal to a
  reconstruction that follows the tree from the top; that reconstruction is proved complete for the log's own proofs
  and sound for any proof. The proofs an adversary sends may hold strings of any length, because the verifier checks
  none.
- **Anchor batches** (`AnchorBatch`, `BatchTheorems`). The level-by-level tree that repeats the last node of an odd
  row, its proofs, and what they bind.
- **Card object** (`CardProfile`, `CardCodec`, `CardWire`, `CardIssuance`, `CardBuilding`, `IssuerSignatures`,
  `Presentation`). The tag-length-value encoding byte for byte and the faults writers and readers name, the signing
  body, building, and the offline decision.
- **Card** (`CardMachine`, `SoftwareToken`, `CardRuns`, `CardCounters`, `CardAnswers`, `CardReader`). A class talked to
  in APDUs; each of its methods is proved to be one step of a machine, the machine's answers are stated byte for byte,
  and its properties hold over every sequence of APDUs and power cycles.
- **Device and personalization** (`VerifierDevice`, `DeviceTheorems`, `QrCodec`, `Personalization`,
  `PersonalizationRuns`, `EndToEnd`, `CounterRuns`, `CredentialBinding`). The device's challenges and verdicts, the QR
  text, the personalization flow over any number of cards, an honest run from the PIN pad to the verdict, any sequence
  of readings and decisions at one counter, and what ties the parts of a presentation together.

How to read the statements:

- The hash is any function with outputs of a fixed width; nothing else is assumed of it. A soundness statement ends in
  "or `Collides(H, S)`", where S is the finite set of strings that the computations in question hash. It says that two
  different strings *of that set* share a digest, so the alternative is a pair the computation itself exhibits, not the
  bare existence of collisions.
- Signers, verifiers, key generators, status checks and the random source are arbitrary functions or parameters.
- A Python `str` is the bytes of its UTF-8 encoding (`Utf8.Text`). Hex strings are the bytes they spell.
- Comparing two texts in constant time fails on anything but ASCII, which the card's catch-all turns into status 6A80
  with no change of state. The model does that, so PINs are not restricted to ASCII where the card does not restrict
  them.
- A loop of the source is a loop here, and an object whose methods update fields is a class. Each is proved equal to a
  function, and the function carries the theorems.

## What the proofs found

- **One-character PINs.** A card without a duress PIN holds a comparand that is meant to match nothing
  (docs/design/duress-on-card.md:69). With a PIN of one character that comparand is a single NUL, and undecodable data
  is also taken to be a single NUL. So such data opens the card. Enrolment is unobservable exactly for PINs of two or
  more characters: `EnrolmentUnobservableIff`.
- **The duress PIN at the counter.** The card never tells the PINs apart, and the counter does not either exactly when
  its response verifier takes one slot's signatures when it takes the other's: `RunsLookAlikeIff`. A card object carries
  the normal slot's key alone (docs/design/card-profile.md:99), and a reader that checks responses under that key, as
  scripts/polaris-verifier-device-drill.py:117 does, refuses every duress presentation in sight of whoever watches; the
  screen does not show success (docs/design/card-profile.md:121): `ObjectKeyShowsDuress`. A reader that tries both keys
  shows nothing: `KeyReadersImpartial`.
- **Nothing ties the three facts together.** A device takes one card's response with another card's object and the
  status of a third credential: `MixedPresentationAccepted`. A caller can tie them by the object's key and reference,
  and then acceptance concerns one card and one credential, and never a duress presentation: `TiedAcceptedIff`.
- **Both signatures must verify** (docs/design/card-profile.md:81) holds of an authentic object exactly when its reader
  has a verifier for each signature it carries (`EverySignatureVerifiedIff`), and of every object exactly when it has
  both (`RuleKeptIff`). Without one, a string that a verifier rejects is accepted in the place of a signature, on
  either side: `DowngradeIsAccepted`. The device never supplies a post-quantum verifier, so one that is set to require
  a post-quantum signature checks only that it is there (`BuiltCardAccepted`), decides alike whatever its bytes are
  (`RequiredSignatureIsFree`), and accepts a rejected one (`BadSignatureAccepted`).
- **Key lengths** are checked when an object is read and not when it is built: `BuiltCardReads` gives the exact
  condition under which a built object can be read, `BuildsIff` the one under which it is built.
- **Personalization never selects the card.** The caller must have, or the call is refused; and a call that fails after
  the keys were generated has used the card up: `SucceedsIff`, `GeneratedCardIsUsedUp`.
- **A batch proof** binds a row exactly when the siblings, whose width nothing checks, are one digest wide and no text
  is as long as two digests; `BindsIff` says so for every row, sibling width and length kept out of the batch. A root
  determines a batch of distinct ids under the second condition, and keeping out any other length will not do:
  `RootsAgreeIff`, `RootsBindIff`. How often a leaf is repeated it does not determine: `RootIgnoresRepeatedLast`.
- **A consistency path** from size m binds the digest a monitor kept exactly when m is a power of two, or the first
  hash of the path, whose width nothing checks, is one digest wide, or it is wider than two digests and nothing is
  accepted: `PathsBindIff`, `FirstHashWidthIsNeeded`.
- **A pairwise handle** does not delimit secret and scope. Handles of two secrets bind them and their scopes exactly
  when neither secret is the other followed by a nonempty text, and so always for secrets of one length:
  `HandlesBindIff`.

## Model

| member | source | states |
|---|---|---|
| TransparencyLog.LogK | polaris_web/anchoring.py:209-213 | the doubling loop finds the largest power of two strictly below n, the split of a size-n tree, and 0 below two |
| TransparencyLog.HeadCommitsToLog | polaris_web/anchoring.py:200-224 | two logs of any, possibly different, lengths with one head are one log, or computing the two heads exhibits a collision |
| TransparencyLog.InclusionProofLength | polaris_web/anchoring.py:243-255 | an inclusion proof has at most ceil(log2 n) hashes, and none outside the log |
| TransparencyLog.ConsistencyProofLength | polaris_web/anchoring.py:227-240 | a consistency proof has at most ceil(log2 n)+1 hashes, and none for the whole log |
| LogVerifier.InclusionLoopIsReconstruction | packages/polaris-verify/polaris_verify_cli/verifier.py:3611-3623 | climbing by the bits of index and size rebuilds the head the top-down split rebuilds, for every path, failures included |
| LogVerifier.ConsistencyLoopIsReconstruction | packages/polaris-verify/polaris_verify_cli/verifier.py:3550-3576 | the seeded climb by the bits of both sizes rebuilds the two heads the top-down split rebuilds, for every path, failures included |
| LogVerifier.VerifyInclusion | packages/polaris-verify/polaris_verify_cli/verifier.py:3595-3623 | the shifting loop accepts exactly the paths that rebuild the head |
| LogVerifier.VerifyConsistency | packages/polaris-verify/polaris_verify_cli/verifier.py:3528-3577 | the two shifting loops accept exactly the paths that rebuild both heads, with the special cases for equal sizes and for an empty older log |
| LogTheorems.InclusionComplete | polaris_web/anchoring.py:243-255 | the log's inclusion proof is accepted for every index and size |
| LogTheorems.InclusionSound | polaris_web/anchoring.py:200-255 | any accepted path for an entry at an index names the log's entry there and is the log's own proof, or a collision is exhibited |
| LogTheorems.ConsistencyComplete | polaris_web/anchoring.py:227-240 | for every log and every prefix the log's consistency proof is accepted between the two heads |
| LogTheorems.ConsistencySound | docs/design/transparency-log.md:41-43 | append-only: any accepted path between the head of d and the head of e makes d the beginning of e and is the log's own proof, or a collision is exhibited |
| LogMonitor.ConsistencyBindsRoot | docs/design/transparency-log.md:50-61 | append-only for a monitor that kept one digest: any path accepted from it to the head of e makes it the head of the first m entries of e and is the log's own proof, or a collision is exhibited; given, unless m is a power of two, a first hash of one digest or of more than two |
| LogMonitor.FirstHashWidthIsNeeded | packages/polaris-verify/polaris_verify_cli/verifier.py:3528-3577 | for every log, every m that is no power of two and every other width up to two digests, the log's own proof with its first two hashes cut elsewhere is accepted, with a digest that is not the head of the first m entries unless the computations collide |
| LogMonitor.PathsBindIff | packages/polaris-verify/polaris_verify_cli/verifier.py:3528-3577 | in every log without a collision among the strings named, paths with a first hash of k bytes bind the kept digest exactly when m is a power of two, or k is one digest, or k is more than two |
| AnchorBatch.RowTextInjective | polaris_web/anchoring.py:68-79 | the separator can appear in no id, so a leaf's text determines id and commitment whatever the commitment holds |
| AnchorBatch.DecimalReads | polaris_web/anchoring.py:68-79 | an id's text is its decimal numeral: a reader from the front gets the id back, sign included, and no digit is too many |
| AnchorBatch.RowReads | polaris_web/anchoring.py:68-79 | a leaf's text reads back to id and commitment at its first separator |
| AnchorBatch.MerkleTree | polaris_web/anchoring.py:89-110 | the loop builds the rows up to the root and refuses an empty leaf list |
| AnchorBatch.MerkleRoot | polaris_web/anchoring.py:113-115 | the root is the single node of the last row |
| AnchorBatch.InclusionProof | polaris_web/anchoring.py:118-142 | the loop over the rows collects the proof of the leaf, answers any other index as the source's lists do, and refuses an empty leaf list |
| AnchorBatch.ProofFromEnd | polaris_web/anchoring.py:118-142 | in a full tree an index that counts from the end gives the proof of the leaf it counts to |
| AnchorBatch.VerifyProof | polaris_web/anchoring.py:145-162 | the loop accepts exactly the proofs that lead to the root, and none with a malformed step |
| AnchorBatch.ComputeBatch | polaris_web/anchoring.py:169-187 | root and proof table of the anchors by ascending id; an empty batch is refused |
| BatchTheorems.ProofComplete | polaris_web/anchoring.py:118-162 | for every leaf list and index, odd rows at any level included, the proof is accepted and has exactly ceil(log2 n) steps |
| BatchTheorems.BatchComplete | polaris_web/anchoring.py:169-187 | in a batch of distinct ids every anchor's table entry is accepted for the leaf recomputed from its row |
| BatchTheorems.MalformedIsRefused | polaris_web/anchoring.py:152-162 | no proof with a malformed step is accepted, whatever its other steps |
| BatchTheorems.BatchIgnoresOrder | polaris_web/anchoring.py:16-18 | for distinct ids the order in which the anchors are given changes neither root nor proofs |
| BatchTheorems.SortIsStable | polaris_web/anchoring.py:169-187 | anchors with one id keep the order they were given in |
| BatchTheorems.TableHoldsLast | polaris_web/anchoring.py:169-187 | the proof table holds, under the numeral of each id there is and no other key, an accepted proof of the last anchor given with that id |
| BatchTheorems.BatchProofBinds | docs/design/anchoring.md:134-139 | a proof of any length accepted for the recomputed leaf of a row puts that row in the batch or exhibits a collision, given siblings of one width, no batch text as long as a sibling and a digest, and a row text not two digests long |
| BatchTheorems.BindsIff | polaris_web/anchoring.py:68-86 | for every row, sibling width, digest width of three or more and length kept out of the batch: proofs bind the row under all hashes and batches exactly under the conditions of BatchProofBinds, each of which fails on an explicit input otherwise |
| BatchTheorems.SiblingSpellsText | polaris_web/anchoring.py:145-162 | for every row and sibling width a one-anchor batch, with a text of that width and a digest, that accepts the row with no collision |
| BatchTheorems.TextSpellsNode | polaris_web/anchoring.py:82-86 | for every row with a text of two digests, a batch of two other anchors closed with that row's leaf for its root, with no collision |
| BatchTheorems.RootsAgreeIff | polaris_web/anchoring.py:16-18 | two batches of distinct ids, without a text of two digests, have one root exactly when they hold the same anchors, or closing them exhibits a collision |
| BatchTheorems.RootsBindIff | polaris_web/anchoring.py:169-187 | a root determines its batch, under all hashes and among batches of distinct ids without a text of length n, exactly when n is two digests |
| BatchTheorems.RootBinds | polaris_web/anchoring.py:89-115 | every anchor of a batch is in every batch with the same root, repeated ids or not, or a collision is exhibited |
| BatchTheorems.RootIgnoresRepeatedLast | polaris_web/anchoring.py:20-24 | repeating the last leaf of an odd list of three or more keeps the root |
| CardProfile.Encode | polaris_card/card_profile.py:164-188 | the loop over the sorted tags builds the encoding, with the first error in the source's order |
| CardProfile.Decode | polaris_card/card_profile.py:191-229 | the loop over the records reads the fields, with the first error in the source's order |
| CardCodec.DecodedReencodes | polaris_card/card_profile.py:16-19 | every byte string a reader accepts is the encoding of what it decodes to |
| CardCodec.DecodingInjective | polaris_card/card_profile.py:191-192 | no content has two accepted encodings |
| CardCodec.SurvivesIffAdmissible | polaris_card/card_profile.py:122-229 | a field map encodes and decodes back to itself exactly when it is the profile's: known names, values of the right kind, range and length, document type and version |
| CardCodec.ReadBackIffAdmissible | polaris_card/card_profile.py:122-229 | a field map that encodes is read back at all exactly when its fields that carry a value are the profile's, and then as those fields |
| CardWire.WireFormat | polaris_card/card_profile.py:36-188 | an encoded object is the records of its fields in tag order, each its tag, two length bytes and value |
| CardWire.WriterRefuses | polaris_card/card_profile.py:164-188 | a writer refuses forbidden names, then unknown ones, then missing fields, then fields that do not fit, exactly, and writes all else |
| CardWire.WriterNamesFirst | polaris_card/card_profile.py:177-187 | of the fields that cannot be written the first in tag order is named, as too long if that is all |
| CardWire.ReaderNamesFirst | polaris_card/card_profile.py:191-229 | behind readable records a reader names a torn record or an unknown tag, and at the end a missing field, then the document type, then the version |
| CardWire.ReaderNamesFault | polaris_card/card_profile.py:208-221 | of a record with a known tag it names repetition, then order, then a value that the field cannot have |
| CardWire.ReaderReadsOn | polaris_card/card_profile.py:191-221 | every other record is read, and the bytes so far are the encoding of the fields so far |
| ByteStrings.BigEndianAt | polaris_card/card_profile.py:122-132 | an integer's encoding has its digits in base 256, the most significant first |
| CardIssuance.VerifyCard | polaris_card/card_profile.py:280-334 | the staged verdict is authentic exactly under the stated conditions; its signatures agree exactly when one was checked, none checked failed and a required one is there; and its note is the first thing wrong, in the source's order |
| CardIssuance.BodyIsPrefix | polaris_card/card_profile.py:232-239 | an encoded object is its signing body followed by the encoded signatures |
| CardIssuance.BodyDecodesAlone | polaris_card/test_card_profile.py:65-74 | the signing body is itself a readable object holding exactly the signed fields |
| CardIssuance.SignatureCannotMove | polaris_card/card_profile.py:16-19 | two readable objects with one signing digest carry the same signed fields, or their bodies collide |
| CardIssuance.BuiltCardReads | polaris_card/card_profile.py:250-277 | a built object is readable exactly when its keys have the profile's lengths, and then holds each signature over the digest its signer was given |
| CardBuilding.BuildsIff | polaris_card/card_profile.py:250-277 | an object is built exactly when there is a signer, every number is in its field's range and keys and signatures fit their length bytes; and its exact length |
| CardBuilding.BuiltCardAuthentic | polaris_card/card_profile.py:250-334 | with any verifiers, a built object is authentic exactly when its keys have the profile's lengths, at least one signature is checked, each checked one verifies over the digest its signer received, the post-quantum one is there if required, and it has not expired |
| IssuerSignatures.EverySignatureVerifiedIff | docs/design/card-profile.md:81-87 | every signature of an authentic object was verified exactly when its reader has a verifier for each signature it carries |
| IssuerSignatures.RuleKeptIff | docs/design/card-profile.md:81-83 | a reader with a verifier, which if it is its only one takes some signer's signatures, verifies every signature of every object it finds authentic exactly when it has both verifiers |
| IssuerSignatures.UncheckedSignatureIsFree | polaris_card/card_profile.py:309-327 | without a post-quantum verifier the bytes of that signature do not matter to the verdict, even when the signature is required |
| IssuerSignatures.DowngradeIsAccepted | polaris_card/card_profile.py:287-291 | for every string a verifier rejects there is an object that carries it as that signature and is authentic to a reader without that verifier, and not to one with both verifiers; for either signature |
| Presentation.ResponseBodyInjective | polaris_card/card_profile.py:340-352 | a signed body determines challenge, scope and handle: no boundary can be shifted |
| Presentation.BodyReads | polaris_card/card_profile.py:340-352 | a body exists exactly for challenges of 16 bytes or more within the length bytes, and reads back as challenge, scope and handle in this order |
| Presentation.HandlesAgreeIff | polaris_card/card_profile.py:108-116 | two handles are equal exactly when secret and scope, run together, are the same string, or the two hashed strings collide |
| Presentation.HandlesBindIff | polaris_card/card_profile.py:108-116 | handles of two secrets determine secret and scope, whatever the scopes, exactly when neither secret is the other followed by a nonempty text |
| Presentation.OtherSecretOtherHandle | polaris_card/card_profile.py:108-116 | two different secrets of one length have different handles for every scope, or two hashed strings collide |
| SoftwareToken.Token.Make | polaris_card/emulator.py:94-129 | the constructor's refusals in their order, and the state and comparand of a card that is made |
| CardAnswers.RefusedCards | polaris_card/emulator.py:94-112 | which cards the constructor refuses and as what, each refusal exactly |
| CardAnswers.ComparandHasNul | polaris_card/emulator.py:76-84 | the comparand of a card without a duress PIN is as long as the PIN and begins with a NUL |
| SoftwareToken.Token.Reset | polaris_card/emulator.py:132-139 | a power cycle forgets selection and authentication and nothing else |
| SoftwareToken.Token.Transmit | polaris_card/emulator.py:150-203 | one APDU is one step of the machine, an exception being answered 6A80 |
| SoftwareToken.Token.VerifyPinData | polaris_card/emulator.py:212-234 | both comparisons, the counter and the slot, as one step |
| SoftwareToken.Token.UnblockData | polaris_card/emulator.py:236-248 | the PUK and both counters, as one step |
| SoftwareToken.Token.SignChallengeData | polaris_card/emulator.py:265-300 | the checks of a signing command and its answer, as one step |
| SoftwareToken.Token.GenerateBothKeypairs | polaris_card/emulator.py:302-327 | key generation, remembered even when a key is too long to report |
| SoftwareToken.Token.LoadCardObject | polaris_card/emulator.py:329-339 | an object is loaded once, on a blank card, if it decodes |
| CardAnswers.ParseIff | polaris_card/emulator.py:161-183 | an APDU is taken for a command exactly when it spells one in one of three forms, and refused for its class or else its length |
| CardAnswers.VerifyAnswers | polaris_card/emulator.py:212-234 | status, counter and slot after every VERIFY, byte for byte |
| CardAnswers.UnblockAnswers | polaris_card/emulator.py:236-248 | status and counters after every UNBLOCK, byte for byte |
| CardAnswers.SelectAnswers | polaris_card/emulator.py:184-210 | what SELECT names and drops, and what is refused without it or unknown |
| CardAnswers.ObjectAnswers | polaris_card/emulator.py:253-339 | answers and effects of GET and PUT CARD OBJECT |
| CardAnswers.GenerateAnswers | polaris_card/emulator.py:302-327 | answer and effect of GENERATE KEYPAIR, the normal key first |
| CardAnswers.SignAnswers | polaris_card/emulator.py:265-300 | the answer of SIGN CHALLENGE from the open slot's own secret, and each refusal; nothing changes |
| CardAnswers.PowerCycleForgets | polaris_card/emulator.py:132-139 | how a card is made, and that a power cycle drops selection and authentication and keeps every counter |
| CardAnswers.SignedUnderPin | polaris_card/emulator.py:265-300 | over every run: what a card signs, it signs for a challenge of 16 bytes or more, with the slot and the secret of the PIN last entered right, nothing having locked it since |
| CardAnswers.NeverDuress | polaris_card/emulator.py:79-82 | over every run, PINs without a NUL never open the duress slot of a card whose comparand has one |
| Utf8.TextIff | polaris_card/emulator.py:215-218 | the texts a card decodes are exactly the encodings of sequences of Unicode scalar values |
| CardRuns.MadeIsSound | polaris_card/emulator.py:94-147 | over every run the counters stay in range, an unlocked card is selected with a full counter, and a card is personalized exactly when it holds an object, which decodes |
| CardRuns.DuressLooksNormal | polaris_card/emulator.py:15-19 | exchange the two PINs in any VERIFY commands of any run: every response is equal, or is a signing answer that differs in handle and signature bytes alone |
| CardRuns.PinSwapInPlace | polaris_card/emulator.py:349-351 | writing one PIN in the place of the other, with any parameters and any tail, is such an exchange |
| CardRuns.EnrolledIffAdmitted | polaris_card/emulator.py:94-112 | with a duress PIN the constructor admits exactly two different ASCII PINs of one length, a duress secret, and an object that decodes |
| CardRuns.EnrolmentUnobservableIff | polaris_card/emulator.py:76-84 | a card with a duress PIN and one without answer alike on every run that guesses neither comparand, exactly when the PIN has two characters or more |
| CardCounters.GuessesAreBounded | polaris_card/emulator.py:68-69 | over any run from manufacture, wrong PINs are at most 3(1 + right PINs + right PUKs) and wrong PUKs at most 10(1 + right PUKs) |
| CardCounters.DeadForever | polaris_card/emulator.py:141-147 | with both counters at zero no VERIFY, UNBLOCK, SIGN or GET CARD OBJECT of any later run is answered 9000 |
| CardCounters.ShownOnlyAfterPin | polaris_card/emulator.py:253-277 | a card signs or shows its object only after a right PIN with no power cycle, SELECT or wrong PIN since |
| CardCounters.ObjectIsForGood | polaris_card/emulator.py:48-52 | an object once loaded never changes, over any run |
| CardCounters.GeneratesAtMostOnce | polaris_card/emulator.py:316-327 | GENERATE KEYPAIR succeeds at most once in a run and never on a personalized card |
| CardCounters.ReadsWhatWasLoaded | polaris_card/emulator.py:253-263 | GET CARD OBJECT returns exactly the bytes loaded at any earlier point |
| CardReader.PutCommandParses | polaris_card/emulator.py:363-369 | the card reads the extended-length command back to the object the builder was given |
| CardReader.SignedResponseParses | polaris_card/emulator.py:427-442 | the reader gets handle and signature back from a signing answer of any signature length that fits |
| CardReader.KeysResponseParses | polaris_card/emulator.py:372-387 | the reader gets both public keys back from a generation answer |
| CardReader.ParseSignedIff | polaris_card/emulator.py:427-442 | handle and signature are taken from exactly the successful answers that begin with them, each behind its length |
| CardReader.ParseKeysIff | polaris_card/emulator.py:372-387 | both keys are taken from exactly the successful answers that begin with them |
| VerifierDevice.VerifierDevice.Challenge | polaris_card/verifier_device.py:93-102 | the challenge is remembered as open and nothing else changes |
| VerifierDevice.VerifierDevice.Retire | polaris_card/verifier_device.py:104-113 | an open challenge becomes spent; a spent or foreign one is refused and changes nothing |
| VerifierDevice.VerifierDevice.ReadNfc | polaris_card/verifier_device.py:116-142 | the device drives the card through its commands; the card's state and the presentation are those of the reading |
| VerifierDevice.VerifierDevice.DecideOn | polaris_card/verifier_device.py:173-263 | the staged verdict and the retired challenge, in the source's order of checks |
| DeviceTheorems.AcceptedIff | docs/design/verifier-device.md:15-26 | a presentation is accepted exactly when possession, authenticity and authorization each hold |
| DeviceTheorems.VerdictKeepsFactsApart | docs/design/verifier-device.md:15-26 | possession, authenticity, mode, status, freshness and handle of every verdict, each from its own evidence and nothing where nothing was looked at |
| DeviceTheorems.NoteNamesFirstLack | polaris_card/verifier_device.py:173-263 | a verdict's note is the first thing that it lacks, in the source's order |
| DeviceTheorems.LinkabilityIff | polaris_card/verifier_device.py:221-246 | the verdict says credential-linkable exactly when the device came as far as a status source that names the credential, whether or not its check then succeeds |
| DeviceTheorems.BuiltCardAccepted | polaris_card/verifier_device.py:210-220 | of a built object a device checks the classical signature, the expiry and, if it requires one, the presence of a post-quantum signature: accepted exactly then, with possession and authorization |
| DeviceTheorems.RequiredSignatureIsFree | polaris_card/verifier_device.py:210-220 | a device that requires a post-quantum signature decides alike whatever the bytes of that signature |
| DeviceTheorems.BadSignatureAccepted | docs/design/card-profile.md:81-87 | for every string a post-quantum verifier rejects there is an object carrying it that a device which requires the signature accepts |
| DeviceTheorems.EachChallengeOnce | polaris_card/verifier_device.py:93-113 | over any sequence of operations and any random source, no two verdicts prove possession over one challenge |
| DeviceTheorems.ProvenWasIssued | polaris_card/verifier_device.py:93-113 | a proven challenge is one this device issued earlier, answered for its own scope |
| DeviceTheorems.RaisesIff | polaris_card/verifier_device.py:198-199 | a decision raises exactly on a scope no body can carry; the short-challenge refusal is never reached |
| QrCodec.B64RoundTrip | polaris_card/verifier_device.py:70-76 | unpadded base64url inverts at every length |
| QrCodec.B64IsStandard | polaris_card/verifier_device.py:70-71 | the text is that of RFC 4648: four symbols for three bytes, two or three for one or two at the end, no padding |
| QrCodec.QrRoundTrip | polaris_card/verifier_device.py:154-170 | what the phone shows is what the device reads, with or without a card object |
| QrCodec.QrShape | polaris_card/verifier_device.py:154-163 | the text is the tag and the fields between colons; a payload is refused for its tag or for its number of parts exactly |
| Personalization.Registry.Personalize | polaris_card/personalization.py:74-177 | the ordered checks, what the card is sent, and the row that is added |
| Personalization.SucceedsIff | polaris_card/personalization.py:74-177 | a call succeeds exactly when the credential exists, is ACTIVE, is not past its last day and has no row, the card can take its keys, the numbers are in range, the key lengths are right, the object's computed length fits, and the issuer's check takes its own signature |
| Personalization.RefusalNamesFirst | polaris_card/personalization.py:82-126 | each refusal up to the keys, exactly and in the source's order, and what it leaves of card and rows |
| Personalization.LoadingNamesFirst | polaris_card/personalization.py:131-158 | each refusal after the keys, exactly and in the source's order |
| Personalization.SuccessRecords | polaris_card/personalization.py:131-177 | a successful call adds one row about the object the card now holds: its digest, normal key, reference, agency, sequence and operator, with two different slot keys |
| Personalization.ObjectRecorded | polaris_card/personalization.py:126-143 | the object carries the ordered dates or their defaults, the issuer's signature over its body, and a second key and signature exactly when both were ordered |
| Personalization.AuthenticUntilExpiry | polaris_card/personalization.py:126-148 | the object of a checked personalization is authentic to the issuer's verifier until its expiry and not from it on |
| Personalization.RefusalAddsNothing | polaris_card/personalization.py:56-58 | a refused call adds no row and loads no object |
| Personalization.GeneratedCardIsUsedUp | polaris_card/personalization.py:111-118 | a card that has generated its keys is refused by every later call, whatever happens in between |
| PersonalizationRuns.EveryRowStands | polaris_card/personalization.py:24-40 | from a system without rows, over any sequence of calls, uses of cards and changes of status: one row a credential, one row a card, every row true of the object its card holds, and no earlier row gone or changed |
| PersonalizationRuns.EveryRowWasEarned | polaris_card/personalization.py:82-107 | over any sequence of actions, every row was written by a call for its credential while that was ACTIVE, not past its last day and without a row |
| PersonalizationRuns.AuthorityAnswers | polaris_card/personalization.py:180-200 | for any credential and any check: duress if the credential's duress key fits, normal if only the normal key does, none exactly without a row or a fitting key |
| PersonalizationRuns.AuthorityNamesSlot | polaris_card/personalization.py:180-200 | for every recorded card the authority names exactly the slot that signed, and none if neither did |
| EndToEnd.HonestRead | polaris_card/verifier_device.py:116-142 | given either PIN, a reading yields the presentation of the opened slot exactly when the card is not blocked, holds an object and compares ASCII, the scope has at most 222 bytes and the PIN at most 255, and the slot has a secret and a signature that fits |
| EndToEnd.RefusedRead | polaris_card/verifier_device.py:116-142 | a reading that stops at the PIN reports the card's answer, and costs one try exactly for a wrong PIN |
| EndToEnd.HonestRunAccepted | polaris_card/verifier_device.py:173-263 | the body the device checks is byte for byte what the card signed, and the run is accepted exactly when that signature verifies, the object was shown and is authentic and the credential is active |
| EndToEnd.PukRestoresReading | polaris_card/emulator.py:236-248 | the right PUK restores both counters, and a reading then succeeds exactly when it would from a card that was never blocked |
| CounterRuns.DuressVerdictsLookNormal | docs/design/card-profile.md:118-130 | over any sequence of readings, decisions and other events, exchanging the two PINs leaves the device in one state, every presentation equal but for handle and signature, and every verdict equal but for the handle, given response verifiers that do not tell the slots apart |
| CounterRuns.RunsLookAlikeIff | docs/design/card-profile.md:118-130 | all runs of a counter look alike under exchanged PINs exactly when its response verifier takes what one slot signs exactly when it takes what the other signs |
| CounterRuns.ObjectKeyShowsDuress | scripts/polaris-verifier-device-drill.py:117-124 | a reader that checks responses under the key of the object it is shown proves possession under the normal PIN and refuses the response under the duress PIN |
| CounterRuns.KeyReadersImpartial | docs/design/card-profile.md:99-101 | a reader that checks under one slot's key tells the slots apart; one that tries both keys does not |
| CredentialBinding.TiedAcceptedIff | docs/design/verifier-device.md:15-26 | with the response checked under the shown object's key and the status of the credential it refers to, a response some card's slot signed is accepted exactly when that card is the object's, the slot is the normal one, the object is authentic and the credential active |
| CredentialBinding.MixedPresentationAccepted | polaris_card/verifier_device.py:173-263 | one card's response shown with any other object is accepted exactly when response, object and status would each be taken for themselves |
| CredentialBinding.DomainsSeparate | polaris_card/card_profile.py:88-116 | references, handles and response bodies carry their own labels, and no hashed or signed string is two of them |

## Left out

- Cryptography (SHA3, ECDSA, ML-DSA, DER wrapping, fresh keys): abstract functions stand in its place.
- Timing: that comparisons take constant time is not expressible here; only responses are modelled.
- Hash names: the lookup of a hash by name and its refusal; a batch takes its hash, of any width, as a parameter.
- Hex text: what the batch helpers do with a string that is not hex.
- Size fields read from the wire: the verifier's reader refuses booleans, text and fractions; the model takes integers and refuses negative and inconsistent ones.
- Field values of the wrong kind: Python coerces some when it encodes (an integer where bytes are due gives that many zero bytes); the model refuses them all.
- Texts of notes and exceptions: which case applies is modelled, its wording is not.
- QrCodec.ReadQr: Python's base64 decoder skips characters outside the alphabet and trailing bits; the model refuses such characters, so only the round trip is claimed and not that a text has one reading.
- CardRuns.DuressLooksNormal: assumes signatures of 64 bytes in both slots, which the slot signers provide and the card does not check.
- CounterRuns.DuressVerdictsLookNormal: assumes the same, and response verifiers that do not tell the slots apart; RunsLookAlikeIff shows that the latter is needed.
- BatchTheorems.BatchProofBinds: assumes widths that the walk does not check; BindsIff shows that each of them is needed.
- CardRuns.EnrolmentUnobservableIff: of PINs of one character, assumes that they are no NUL, which a keypad cannot send and the card does not check.
- Key generators that raise or answer differently when asked again: a generator is a function of the slot.
- The database (SQL, its unique indexes, transactions, concurrent calls): a map of credentials and a list of rows, one call at a time.
- Clocks: the date of a personalization and the time of a decision are parameters.
- The status assertion's own verification, signed tree heads, witnesses and ledgers: a parameter, or not part of this model.
- QR request text and capacity figures: formatting and reporting.
- The simulator, the command line tool, the conformance generators and the web application: plumbing around code outside this model.
