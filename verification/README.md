# Knish.IO C++ SDK: the molecule pipeline, verified

This project models how the Knish.IO C++ client SDK turns a list of atoms and a secret into a one-time signature, and how a
molecule is checked again: the number and text codecs underneath, the molecular hash, the hash-chain signature, the builders of value
transfers with the conservation checks they must pass, the split of stackable units, the JSON form of a molecule, the timestamp
normalization, and the movement of a bundle's ContinuID head between several clients.

`dafny verify dfyconfig.toml` checks everything.

## How to read it

Loops and object methods of the SDK are Dafny methods and classes (`Molecule`, `Wallet`, `CryptoBigInt`) with the same branches. Each
is proved to compute a function of its inputs or of the old state; the properties are lemmas about those functions. Modules, from the
ground up:

| module | contents |
|---|---|
| `Common`, `Numerals`, `Bits`, `Decimal`, `Json`, `StableSort` | results and errors, positional numerals, bitwise or, `to_string`/`stoi`/`stoll`/`strtoll`, JSON values, the contract of `std::stable_sort` |
| `Hex`, `Base64`, `SecretEnvelope`, `BaseConvert`, `BigInt` | the codecs, base conversion, multi-limb addition |
| `Chunks`, `Base17`, `Normalize`, `Ots`, `KeyDerivation` | fragment splitting, the hash text, normalization of its symbols, keys, chains and addresses, what they are made of |
| `Atom`, `AtomHash`, `HashCoverage`, `Signing`, `HashRange` | meta lists, the Version4 view and the molecular hash, what the hash covers, signing and `verifyOts` on atoms, which hashes there are |
| `Wallet`, `Conservation`, `Builders`, `Acceptance`, `Postings` | unit splits, the V and cross-isotope checks, the atoms that builders push, why they pass, which wallet and address gets what |
| `Verification`, `Molecule`, `Client` | the verdicts of `verify` and `check`, the molecule object, and the client's value operations from wallets to a signed molecule |
| `Wire`, `WireMolecule`, `ParsedAtom` | atoms and molecules to JSON and back, what is read of any JSON and shown of it |
| `Conventions` | literal instances and laws that fix symbols, digit order and number syntax |
| `Calendar` | civil days, RFC 3339 timestamps, `toSignedTimestamp` |
| `ContinuId` | clients of both OTS versions sharing one head |

Parameters stand for what is outside: `xof` is SHAKE256 (section 6.2 of FIPS 202), known only by its output length; `dump` prints a
JSON value; `now` and `made` are clock readings, numbered by the atom they are taken for; `newBatch`, `random` and `next` are random
strings; `fl` is floating-point parsing and addition.

Assumptions are hypotheses of the lemmas that need them: the chain values and chain ends that verification compares do not collide
(`StepsApart` and the ends, in `AcceptedSignatureUnique`); floating-point addition is exact on integers up to 2^53 and the parsers read
such integers (`ExactAdd`, `ReadsIntegers`); no position that signed in the run has the same address under both OTS versions
(`NoCollision`, for the two theorems about versions over runs; that no position signs twice and that reading and submitting is accepted
needs no such assumption); the views of a molecule and of its copy read back are not printed as one text (`PrintsApart`, in
`WireInputExact`).

What the proofs found where the code gives less than one might expect:

- The V check looks only at tokens whose first atom, of any isotope, is a V atom (`VCheckMeaning`). So it is conservation for whatever
  integers a molecule carries if and only if every V token starts with a V atom (`VCheckExact`; `UncheckedToken` gives the values that
  pass otherwise).
- The cross check of buffer and fusion molecules adds values across tokens (`CrossIgnoresTokens`): a debit of one token may be the
  credit of another (`OneTokenForAnother`). Apart from negative F values, which it refuses, it is conservation per token for whatever
  integers if and only if every V or B atom has the token of every V, B and F atom (`CrossCheckExact`), as when all wallets of an
  operation have one token.
- The hash of unversioned atoms covers every field (`FieldCovered`) but not the borders between them (`TextMoves`); the versioned view
  covers both (`VersionedCovered`). So with keys: version 1 glues sum and token (`Version1KeysAgree`), version 2 keeps them apart
  (`Version2KeysAgree`).
- Signing does not clear old fragments. `FragmentsExact`: gluing returns the signature exactly when the atoms behind the last
  written fragment carried none.
- A strict base64 text is the encoding of its own decoding exactly when its cut-off bits are zero (`DecodeEncode`), so several strict
  texts decode to one signature.
- `splitUnitsMulti` hands a unit out once for every list that names it (`SharesCount`), so it conserves units if and only if no unit of
  the source is in two lists (`SharesConserveExactly`); lists without a recipient lose their units (`SplitConservesExactly`, and
  `SplitUnitsMulti` on the wallets).
- The order of signing counts that v2 rules out is possible for the 16 chains of v1: two digests have ordered counts
  (`FirstChainsOrdered`), since any 16 entries that begin with two lowest ones occur (`FirstChainsFree`). The first symbol of a hash is
  always '0' (`FirstSymbolIsZero`).
- A molecule with an atom that has no position or address is written but cannot be read back (`MoleculeRoundTrip`): a transfer to a
  wallet that has none, and every fusion (`FusionNotReadable`).
- The JSON form drops null meta items and the difference between an empty and an absent field. The legacy hash does not see this; the
  view of a versioned molecule survives exactly when no atom carries such a mark (`WireViewsExact`, `WireInputExact`).
- The timestamp parser takes day 31 of any month, second 60 and any two-digit offset; a day past the end of its month runs on into
  the next (`CivilIsCount`) and second 60 is the next minute (`LeapSecondIsNextMinute`).
- `sign`'s guard against a hash that is not signable never fires: every atom list hashes to a signable text (`HashIsSignable`).
- The Version4 view is independent of the atom order only while the indices differ (`TiedAtomsKeepOrder`).
- `initValue`, `initValues`, `initDepositBuffer` and `initWithdrawBuffer` have already pushed atoms when a bad amount or balance makes
  them throw; `initTokenFusion` has not. The contracts of the methods say which atoms are left.
- Without a served address a client falls back to its own OTS version for the head, which is right if and only if the versions agree
  (`BindExact`).
- The client reads balances as `long long` before it starts a transfer, deposit or withdrawal, but a balance beyond `int` is never sent: the builder of `transferToken`
  reads balance and amount as `int` (`ValueChange`, `Transfer`), and for `transferTokens`, `depositBufferToken`, `withdrawBufferToken` and
  `fuseToken` the signed molecule passes its check and then fails in `toJson`, which reads the source balance as `int` (`Outcome`).
- The value operations of the client add no ContinuID atom, so the check before sending stops all of them for a USER wallet, and no other
  (`Transfer` and its companions).

## Model

| member | source | states |
|---|---|---|
| Hex.ToHexString | src/utility.cpp:119-130 | the loop's text is two lower-case digits per byte, first byte first |
| Hex.FromHexString | src/utility.cpp:132-170 | rejects exactly odd lengths and texts with a non-hex character, and decodes every other text |
| Hex.HexRoundTrip | src/utility.cpp:119-170 | decoding an encoding gives the bytes back, for every byte sequence |
| Hex.HexDecodeEncode | src/utility.cpp:119-170 | encoding a decoding gives the text back up to letter case, exactly for lower-case text |
| Conventions.HexVector | src/utility.cpp:119-170 | literal bytes and their digits |
| Base64.ToBase64 | src/utility.cpp:278-304 | the shifting loop computes the block-wise RFC 4648 encoding, without 32-bit overflow |
| Base64.FromBase64 | src/utility.cpp:306-337 | the lenient loop decodes group by group, skipping padding and foreign characters |
| Conventions.ForeignIsPadding | src/utility.cpp:306-337 | a foreign character is read as padding, wherever it stands |
| Base64.EncodeDecode | src/utility.cpp:278-337 | decoding an encoding gives the data back, for every byte sequence |
| Base64.EncodeLength | src/utility.cpp:278-304 | the encoding of n bytes has 4 ceil(n/3) characters |
| Base64.IsStrictBase64 | src/Molecule.cpp:1332-1352 | true exactly for whole groups of alphabet characters with at most two pads, at the end |
| Conventions.StrictPads | src/Molecule.cpp:1332-1352 | strict text is whole groups of symbols of which only the last character or the last two may be pads |
| Base64.EncodeStrict | src/Molecule.cpp:1332-1352 | every encoding of at least one byte is strict |
| Base64.StrictDecodeLength | src/utility.cpp:306-337 | a strict text of length L with p pads decodes to 3L/4 - p bytes |
| Base64.DecodeEncode | src/utility.cpp:278-337 | a strict text is the encoding of its decoding if and only if its cut-off bits are zero |
| Base64.HexBase64RoundTrip | src/utility.cpp:339-346 | hexToBase64 of even-length lower-case hex is strict, of known length, and base64ToHex returns the hex |
| Base64.Rfc4648Vectors | src/utility.cpp:278-304 | the published test vectors, one for each amount of padding |
| Base64.Rfc4648Alphabet | src/utility.cpp:278-304 | the 64 symbols are the alphabet of RFC 4648, in order |
| SecretEnvelope.EncodeBase64 | src/storage/SecretEnvelope.cpp:18-44 | the second encoder computes the same encoding as toBase64 |
| SecretEnvelope.DecodeBase64 | src/storage/SecretEnvelope.cpp:46-96 | the second decoder, white space, length and character errors included, against its specification |
| Conventions.EnvelopeAccepts | src/storage/SecretEnvelope.cpp:46-96 | accepts exactly whole groups of symbols and pads between white space |
| SecretEnvelope.StrictDecodersAgree | src/storage/SecretEnvelope.cpp:46-96 | on strict texts it never throws and decodes as fromBase64 does |
| SecretEnvelope.EnvelopeRoundTrip | src/storage/SecretEnvelope.cpp:18-96 | decodes an encoding to the data whatever white space was put into it |
| BaseConvert.CharsetBaseConvert | src/utility.cpp:18-117 | error order, and otherwise the canonical numeral; quotients fit 32 bits, the loop terminates |
| Conventions.ConvertAccepts | src/utility.cpp:18-53 | accepts exactly an empty input, and hex to a base from 2 to 256 that the table covers |
| BaseConvert.PackLimbs | src/utility.cpp:61-90 | the packed big-endian limbs denote the input's number and fit 32 bits |
| BaseConvert.Divide | src/utility.cpp:98-107 | dividend = quotient * base + remainder, remainder < base, quotient without leading zero limb |
| BaseConvert.ConversionExact | src/utility.cpp:55-113 | whatever digits the output spells denote the input's number and have no superfluous leading zero |
| BaseConvert.ConversionInjective | src/utility.cpp:55-113 | two inputs convert to the same text if and only if they denote the same number |
| BigInt.CryptoBigInt.FromHexString | src/crypto_bigint.cpp:33-73 | the limbs denote the number of the text; a rejected text changes nothing |
| BigInt.CryptoBigInt.ToHexString | src/crypto_bigint.cpp:75-105 | the canonical lower-case numeral of the number held, inner limbs zero-padded |
| BigInt.CryptoBigInt.IsZero | src/crypto_bigint.cpp:107-113 | true exactly when the number held is zero |
| BigInt.CryptoBigInt.Add | src/crypto_bigint.cpp:115-137 | a new object that holds the sum of the two numbers; operands unchanged |
| BigInt.CryptoBigInt.ConstantTimeAdd | src/crypto_bigint.cpp:153-163 | result plus carry times 2^(32 n) is the sum of the operands, carry at most 1, rest of the array unchanged |
| BigInt.CryptoBigInt.Normalize | src/crypto_bigint.cpp:165-170 | removes zero limbs at the top without changing the number |
| BigInt.ConstantTimeHexAdd | src/crypto_bigint.cpp:178-202 | rejects exactly empty and non-hex operands, otherwise the numeral of the sum |
| BigInt.HexAddExact | src/crypto_bigint.cpp:178-202 | a text is the result if and only if it is a canonical lower-case numeral and denotes the sum |
| Base17.IsSignableHash | src/crypto_bigint.cpp:217-229 | true exactly for 64 characters of [0-9a-g] |
| Base17.DigestIsSignable | src/Atom.cpp:293-303 | every 64-digit digest becomes exactly 64 signable symbols that denote the digest's number |
| Base17.DigestInjective | src/Atom.cpp:293-303 | two digests get the same text if and only if they are equal up to letter case |
| Base17.Enumerate | src/Molecule.cpp:1611-1648 | the values of the known characters in order, others dropped |
| Base17.EnumeratedComplete | src/Molecule.cpp:1611-1648 | of a signable text nothing is dropped, and each value is the symbol's base-17 digit less 8 |
| Base17.EnumeratedInjective | src/Molecule.cpp:1611-1648 | the values recover the text |
| Conventions.Base17Vector | src/Molecule.cpp:1611-1648 | the value that each of the 17 symbols enumerates to |
| Conventions.PaddedVector | src/Atom.cpp:293-303 | a literal digest and its padded text |
| Normalize.Normalize | src/Molecule.cpp:1664-1702 | terminates on every vector over -8..8 at the closed form: full clamped passes, then one step on a prefix |
| Normalize.NormalFormUnique | src/Molecule.cpp:1664-1702 | at most one vector has the closed form |
| Normalize.NormalizedMeaning | src/Molecule.cpp:1664-1702 | same length and range, sum zero, all entries moved one way, by the magnitude of the sum in total |
| Normalize.NormalizedFixpoint | src/Molecule.cpp:1664-1702 | a vector that sums to zero is unchanged |
| Normalize.FirstEntryMoves | src/Molecule.cpp:1664-1702 | a sum one off is set at the first entry, where the walk starts |
| Normalize.CountsBalanced | src/Molecule.cpp:795-823 | the 64 counts of a v2 signature (`Ots.StepsAreCounts`) lie in 0..16 and total 512; different normalized vectors are pointwise incomparable |
| HashRange.HashTexts | src/Atom.cpp:293-303 | a signable text is the hash of some digest if and only if the number it denotes fits 256 bits |
| HashRange.FirstSymbolIsZero | src/Atom.cpp:286-303 | every molecular hash starts with the symbol '0', which enumerates to -8 |
| HashRange.FirstChainsFree | src/Molecule.cpp:1655-1658 | whatever 16 entries begin with two lowest ones begin the normalized vector of the hash of some digest |
| HashRange.FirstChainsOrdered | src/Molecule.cpp:1655-1658 | so the incomparability of v2 fails for v1: two digests whose 16 counts are ordered |
| Chunks.ChunkSubstr | src/utility.cpp:172-185 | pieces of the size, the last possibly shorter, and no empty one |
| Chunks.ConcatPieces | src/utility.cpp:172-185 | gluing the pieces gives the text back |
| Chunks.PiecesConcat | src/utility.cpp:172-185 | cutting what was glued from pieces of one size gives the pieces back |
| Chunks.FragmentsFit | src/Molecule.cpp:832-845 | L characters over n atoms make at least one and at most n fragments, so no write goes past the atoms |
| Chunks.LeastFragmentSize | src/Molecule.cpp:832-836 | the rounded-up quotient is the least size that makes at most n pieces |
| Ots.RunChain | src/Molecule.cpp:818-821 | the loop advances a chain by its count |
| Ots.GenerateWalletAddress | src/Wallet.cpp:214-244 | the address of a key: every chain 16 steps, ends glued, hashed twice |
| Ots.WalletKey | src/Wallet.cpp:151-208 | fails exactly for other versions than 1 and 2, an empty secret or an empty position; otherwise 2048 or 8192 lower-case hex digits |
| KeyDerivation.KeyIsSecondAnswer | src/Wallet.cpp:170-191 | the key is what SHAKE256 answers to the hex of its 1024 bytes for the sponge: sum then token, or tag, sum, bar and token for version 2 |
| KeyDerivation.TextsAreHashed | src/Wallet.cpp:162-167 | a secret or position that is no hex stands for the hex of its 128 or 32 bytes |
| KeyDerivation.KeysAgree | src/Wallet.cpp:151-191 | two keys agree whatever SHAKE256 answers if and only if versions and sponges do |
| KeyDerivation.Version1KeysAgree | src/Wallet.cpp:181-187 | for version 1 if and only if the glued texts of sum and token are the same; for one sum the same token, for one token the same sum |
| KeyDerivation.Version2KeysAgree | src/Wallet.cpp:174-180 | for version 2 if and only if sum and token are both the same |
| KeyDerivation.Version1KeyShared | src/Wallet.cpp:174-187 | two pairs of sum and token that version 1 does not tell apart and version 2 does |
| KeyDerivation.AnswersAre | src/Wallet.cpp:98-101 | a chain step asks SHAKE256 for 64 bytes, a bundle hash for 32, an address for 1024 and then for 32 |
| KeyDerivation.InputsTellApart | src/Wallet.cpp:98-244 | addresses, chain steps and bundle hashes agree whatever SHAKE256 answers only for the same input |
| Ots.DetectsExactly | src/Wallet.cpp:111-129 | detection rejects other versions, finds nothing without secret, position or address, and otherwise exactly an address of one of the two versions in either letter case |
| Ots.SignatureRecoversAddress | src/Molecule.cpp:813-823 | 8 - n steps and then 8 + n steps of every chain lead to the key's own address |
| Ots.StepsAreCounts | src/Molecule.cpp:813-823 | the steps of signing are the counts of `CountsBalanced`, those of verifying what is left of 16 |
| Ots.SignatureChunk | src/Molecule.cpp:813-823 | chunk i of the signature is the key's own chunk for entry 8, the end of its 16 steps for entry -8, and one step more for each entry less, without touching other chunks |
| Ots.VerifiedChunk | src/Molecule.cpp:1412-1445 | verifying leaves chunk i as it is for entry -8, walks 16 steps for entry 8, and one step more for each entry more |
| Ots.SignatureUnique | src/Molecule.cpp:1412-1445 | a lower-case hex signature leads to the key's address if and only if it is the key's signature, when the chains and ends compared do not collide |
| Decimal.ParseToString | src/Molecule.cpp:158-165 | reading back a printed integer gives the integer |
| Decimal.ToStringInjective | src/Molecule.cpp:1291-1294 | different integers print differently |
| Conventions.IntegerAtStart | src/Molecule.cpp:166-167 | an integer is read behind white space and an optional sign, up to the first character that is no digit |
| Conventions.NoInteger | src/Molecule.cpp:166-167 | without a digit there nothing is read |
| Conventions.PrintedReads | src/Molecule.cpp:166-167 | a printed integer reads back within the width of the reader and is out of range, or clamped, beyond it |
| Conventions.DecimalVector | src/Atom.cpp:280 | the decimal digits and the sign |
| StableSort.SortMeaning | src/Atom.cpp:179-183 | the sort contract: sorted by key, equal keys in their old order |
| StableSort.SortedDetermined | src/Atom.cpp:179-183 | that contract determines the result |
| Atom.SplitMeta | src/Atom.cpp:110-138 | meta is the entries with a value, nullMeta the others with their positions; errors included |
| ParsedAtom.MetaIsRead | src/Atom.cpp:110-138 | a meta list is read if and only if every element with key and value has a string key; each gives one entry, null as none, a string as itself and anything else as its printed text |
| ParsedAtom.IteratedAs | src/Atom.cpp:114 | a meta field is iterated as the items of an array, the values of an object, nothing for null |
| ParsedAtom.MetaIsShown | src/Atom.cpp:110-215 | the view shows those elements item by item |
| Atom.MergeMetaItems | src/Atom.cpp:203-215 | the two-iterator loop against its specification |
| Atom.NullMetaLossless | src/Atom.cpp:110-215 | splitting and merging reproduces every entry in its original place |
| AtomHash.Version4Views | src/Atom.cpp:179-234 | the views in stable index order |
| AtomHash.ViewOrderExact | src/Atom.cpp:179-234 | two atom lists have the same view if and only if they agree, index by index, on views and their order |
| AtomHash.ViewOrderFree | src/Atom.cpp:179-234 | with distinct indices every permutation of the atoms has the same view |
| AtomHash.TiedAtomsKeepOrder | src/Atom.cpp:179-183 | exchanging two atoms with equal indices, wherever they stand, keeps the view if and only if they have the same view |
| AtomHash.HashAtoms | src/Atom.cpp:236-284 | the digest of the view when all atoms are versioned, of the concatenated fields otherwise |
| HashCoverage.HashedTexts | src/Atom.cpp:243-281 | without versions the hashed text is, atom by atom, the count, the eight plain fields, keys and values of the meta, and the time, glued in this order |
| HashCoverage.FormOfHash | src/Atom.cpp:236-284 | one atom without a version makes the whole molecule hash as glued texts; otherwise the printed view is hashed |
| HashCoverage.FieldCovered | src/Atom.cpp:249-272 | changing a plain field of one atom keeps the hashed text if and only if the field keeps its value |
| HashCoverage.MetaCovered | src/Atom.cpp:274-279 | the same for a meta key and a meta value |
| HashCoverage.CreatedAtCovered | src/Atom.cpp:280 | the same for the time |
| HashCoverage.TextMoves | src/Atom.cpp:249-272 | moving text from the end of one plain field to the front of the next keeps the hashed text |
| HashCoverage.ViewShows | src/Atom.cpp:217-231 | the view shows every field under its own key |
| HashCoverage.MetaItemShows | src/Atom.cpp:191-193 | a meta item shows its key, then its value |
| HashCoverage.ViewExact | src/Atom.cpp:195-231 | two atoms have one view if and only if they agree in all shown fields, the merged meta, and "" or null for empty ones |
| HashCoverage.VersionedCovered | src/Atom.cpp:236-241 | with versions, replacing one atom keeps the hashed text if and only if the two agree in all that a view shows, unless two views print as one text |
| HashCoverage.HashesAgree | src/Atom.cpp:236-303 | two molecules have one hash whatever SHAKE256 answers if and only if their hashed texts are the same |
| AtomHash.HashAtomsBase17 | src/Atom.cpp:286-303 | the molecular hash of the digest, through conversion and padding |
| AtomHash.HashIsSignable | src/Atom.cpp:293-303 | every atom list hashes to 64 signable symbols that enumerate completely |
| AtomHash.HashSeparatesDigests | src/Atom.cpp:286-303 | two hashes are equal if and only if the digests are |
| AtomHash.HashIgnoresFragments | src/Atom.cpp:236-284 | the hash does not depend on signature fragments |
| AtomHash.HashOrderFree | src/Atom.cpp:236-241 | a versioned molecule with distinct indices hashes the same in every atom order |
| Signing.SignatureParts | src/Molecule.cpp:825-845 | between one fragment and one per atom |
| Signing.OtsHex | src/Molecule.cpp:1388-1401 | what passes is 2048 or 8192 characters long |
| Signing.OtsReports | src/Molecule.cpp:1365-1401 | malformed exactly for a hash that is not signable or a text that is neither of those lengths nor strict base64 of 1024 or 4096 bytes; what the text is taken for otherwise |
| Signing.TextForm | src/Molecule.cpp:825-830 | uncompressed the text is the hex, compressed its strict base64 of known length |
| Signing.PartsAreLeast | src/Molecule.cpp:832-845 | the fragments are pieces of the least size with which they fit the atoms |
| Signing.FragmentsExact | src/Molecule.cpp:832-845 | gluing the atoms' fragments gives the signature back if and only if the atoms behind the last written one carried none |
| Signing.TextDecodes | src/Molecule.cpp:1388-1401 | hex and base64 form both decode to the signature's hex |
| Signing.SignedMoleculeVerifies | src/Molecule.cpp:769-848 | after signing fragment-free atoms, v1 or v2, compressed or not, the hash still matches, and verifyOts accepts if and only if atoms[0] names the key's address |
| Signing.Base64ReachesAsHex | src/Molecule.cpp:1388-1401 | every accepted base64 signature reaches the chains as lower-case hex |
| Signing.AcceptedSignatureUnique | src/Molecule.cpp:1388-1445 | verifyOts accepts a lower-case hex signature if and only if it is the one that sign computes, when the chains and ends compared do not collide |
| Verification.CheckIsVerify | src/Molecule.cpp:1061-1082 | check accepts exactly what verify accepts and what carries its ContinuID atom |
| Verification.CheckReports | src/Molecule.cpp:1061-1082 | which failure is reported: completeness, then the hash, then the signature, then conservation |
| Verification.ContinuIdAtom | src/Molecule.cpp:1052-1059 | the first atom decides whether an I atom is needed, and any atom can be it |
| Verification.TokenCheckIgnoresFragments | src/Molecule.cpp:1524-1596 | the conservation check does not depend on signature fragments |
| Verification.SignedVerifies | src/Molecule.cpp:1023-1050 | a signed molecule passes verify if and only if its atoms conserve value and atoms[0] names the key's address |
| Verification.BuiltAndSignedVerifies | src/Molecule.cpp:769-1082 | atoms built for a wallet of the secret that pass the conservation check pass verify once signed, and check too unless it is a USER wallet |
| Verification.SignedTransferVerifies | src/Molecule.cpp:186-261 | a transfer to any number of recipients with the change that initValues computes, signed with the key that sign derives, passes verify |
| Wallet.Wallet.SplitUnits | src/Wallet.cpp:696-719 | who ends up with sent and kept units, for every aliasing of the three wallets; recipient and remainder together hold what the source had; nothing for an empty list |
| Wallet.Wallet.SplitUnitsMulti | src/Wallet.cpp:721-762 | each recipient gets its listed units, the source the union, the remainder the rest; nothing when all lists are empty; the source may itself be a recipient, and those behind it then see only its own share; recipients and remainder, when distinct from the source, together hold what the source had if and only if every listed unit is named by exactly one list with a recipient |
| Wallet.Wallet.IdInList | src/Wallet.cpp:734-739 | membership by linear search |
| Wallet.SplitConserves | src/Wallet.cpp:696-719 | sent and kept units interleave to the source in order: none lost, none duplicated |
| Wallet.SharesPartitionSent | src/Wallet.cpp:741-749 | with disjoint lists the recipients' units together are the sent units |
| Wallet.MultiSplitConserves | src/Wallet.cpp:721-762 | with disjoint lists shares and kept units are exactly the source's units |
| Wallet.SharesCount | src/Wallet.cpp:741-749 | a unit of the source is handed out once for every list that names it |
| Wallet.SharesConserveExactly | src/Wallet.cpp:721-762 | with a recipient for every list, shares and kept units are exactly the source's units if and only if no unit of the source is named by two lists |
| Wallet.SplitConservesExactly | src/Wallet.cpp:721-762 | with n recipients, none lost and none duplicated if and only if every listed unit is named by exactly one of the first n lists |
| Wallet.RecipientsHoldShares | src/Wallet.cpp:741-749 | what the recipients hold together is the shares of the lists that have a recipient |
| Wallet.OneRecipientAgrees | src/Wallet.cpp:696-762 | with one recipient both functions split by the same ids into the same sent and kept units |
| Wallet.FusedAreSent | src/Molecule.cpp:513-543 | with distinct ids the fused units are the sent units as a multiset, and the kept ones are counted by the difference |
| Conservation.VerifyTokenIsotopeV | src/Molecule.cpp:1524-1596 | the nested first-occurrence loops compute the verdict, exception and infinite or not-a-number sums included |
| Conservation.VerifyCrossIsotopeConservation | src/Molecule.cpp:1464-1522 | meta shape, unreadable and negative values, and the tolerance on the sum, infinities and not-a-number included |
| Conservation.CrossIgnoresTokens | src/Molecule.cpp:1464-1545 | a buffer or fusion verdict does not depend on the tokens: amounts of different tokens cancel |
| Conservation.CrossCheckExact | src/Molecule.cpp:1464-1522 | with a B or F atom the check is conservation per token without a negative F value, for all integer values the molecule may carry, if and only if it has the demanded meta and every V or B atom has the token of every V, B and F atom |
| Conservation.CrossCheckIsTotal | src/Molecule.cpp:1464-1522 | on integers the check is the demanded meta, no negative F value and a zero sum over all tokens |
| Conservation.CrossCheckDemands | src/Molecule.cpp:1473-1513 | on any values it demands the meta, values that parse unless they are empty, and no negative F value |
| Conservation.EmptyIsSkipped | src/Molecule.cpp:1489-1493 | a V atom without a value does not count |
| Conservation.Tolerance | src/Molecule.cpp:1521 | the tolerance is a billionth, on finite sums only |
| Conservation.CrossesTokens | src/Molecule.cpp:1464-1522 | otherwise -1 on a V or B atom and 1 on an atom of another token pass and conserve neither token |
| Conservation.OneTokenForAnother | src/Molecule.cpp:1464-1522 | in two atoms: a debit of one token and a buffer credit of another pass |
| Conservation.VCheckMeaning | src/Molecule.cpp:1547-1596 | true if and only if every token whose first atom is a V atom parses and sums to zero |
| Conservation.VCheckIsStrict | src/Molecule.cpp:1524-1596 | nothing is accepted without atoms or hash, an unreadable value throws, and a sum that is not exactly zero is refused |
| Conservation.VScanThrows | src/Molecule.cpp:1582-1587 | it throws if and only if a checked token has an unreadable value and all checked tokens before it balance |
| Conservation.VCheckIsConservation | src/Molecule.cpp:1547-1596 | when every V token starts with a V atom and sums are exact, the check is conservation per token |
| Conservation.UncheckedToken | src/Molecule.cpp:1556-1567 | without B and F atoms, whenever some V atom has a token that starts with another isotope, the check accepts these atoms with the integers 1 there and 0 elsewhere, which do not sum to zero |
| Conservation.VCheckExact | src/Molecule.cpp:1547-1596 | without B and F atoms the check is conservation per token, for all integer values the molecule may carry, if and only if every V token starts with a V atom |
| Acceptance.PlainVerdict | src/Molecule.cpp:1524-1596 | a one-token transfer passes if and only if its values sum to zero |
| Acceptance.CrossVerdict | src/Molecule.cpp:1464-1545 | a buffer or fusion molecule passes if and only if its values sum to zero |
| Acceptance.PaysConserves | src/Molecule.cpp:109-261 | full debit, credits and change sum to zero with exact partial sums, for any number of credits |
| Acceptance.CanonicalReads | src/Molecule.cpp:213-237 | amounts as to_string prints them all read, and the running total is their sum |
| Acceptance.PayoutCanonical | src/Molecule.cpp:213-245 | the change that initValues and initWithdrawBuffer compute is the balance less all amounts, and no total overflows |
| Acceptance.ValueChange | src/Molecule.cpp:166-167 | initValue computes balance less value if and only if both are ints and is out of range otherwise; initDepositBuffer always computes it |
| Acceptance.ValueAccepted | src/Molecule.cpp:109-184 | initValue, whenever it computes its change, conserves, is indexed in order and passes the check |
| Postings.OneRecipientValues | src/Molecule.cpp:109-261 | initValue appends what initValues appends for one recipient |
| Postings.ValuesBook | src/Molecule.cpp:186-261 | each atom of initValues is booked at the position and address, in the batch and in the name of the bundle of its own wallet, with that wallet's amount and units |
| Postings.WithdrawBooks | src/Molecule.cpp:337-401 | the same for initWithdrawBuffer, in the source's token |
| Postings.DepositBooks | src/Molecule.cpp:266-331 | the same for initDepositBuffer, in the name of the source's bundle |
| Postings.FusionBooks | src/Molecule.cpp:507-569 | the same for initTokenFusion: which units are sent, burned at no address, renewed and kept, and in which batches |
| Postings.BuiltInTurn | src/Molecule.cpp:186-401 | transfers and withdrawals take the clock once for each atom, in order, and leave version and marks unset |
| Postings.BuiltInTurnToo | src/Molecule.cpp:266-569 | the same for deposits and fusions |
| Postings.PayoutAtAddress | src/Molecule.cpp:186-401 | what an address gets from a transfer or withdrawal: less the balance, all amounts to it, and the rest |
| Postings.DepositAtAddress | src/Molecule.cpp:266-331 | the same for a deposit |
| Postings.FusionAtAddress | src/Molecule.cpp:507-569 | the same for a fusion of M units: M - 1 go to no address, 1 to the recipient |
| Postings.ThreeAddresses | src/Molecule.cpp:109-184 | in a transfer between three addresses the source gets -b, the recipient v and the remainder b - v |
| Postings.PaidToOwner | src/Molecule.cpp:213-237 | a recipient whose address is its own is paid its own amount |
| Postings.UnitsCarried | src/Molecule.cpp:68-95 | the tokenUnits meta describes exactly the units, as triples of id, name and metas; none without units |
| Postings.NewUnitCarried | src/Molecule.cpp:540-546 | the new unit has the new id as id and name, and lists the fused units in caller order |
| Postings.RatesCarried | src/Molecule.cpp:280-297 | the tradeRates meta is an object in key order that holds the last rate of every pair; none without rates |
| Postings.FusionPlanExact | src/Molecule.cpp:509-548 | fails on its units exactly for fewer than two, an unknown one or a new id that is taken, only then on the balance; otherwise the first unit of each id in caller order |
| Acceptance.ValuesAccepted | src/Molecule.cpp:186-261 | initValues with any number of recipients computes its change, conserves, is indexed in order and passes the check |
| Acceptance.DepositAccepted | src/Molecule.cpp:266-331 | initDepositBuffer computes its change, conserves, is indexed in order and passes the cross check |
| Acceptance.WithdrawAccepted | src/Molecule.cpp:337-401 | initWithdrawBuffer with any number of recipients computes its change, conserves, is indexed in order and passes the cross check |
| Acceptance.FusionAccepted | src/Molecule.cpp:507-569 | initTokenFusion, with the units it resolves and the balance it reads, conserves, is indexed in order and passes the cross check |
| Acceptance.FusionChangeCountsKept | src/Molecule.cpp:534-566 | when the balance is the unit count, the change is the number of kept units |
| Molecule.Molecule.InitValue | src/Molecule.cpp:109-184 | the atoms appended, and the two left behind when balance or value does not read |
| Molecule.Molecule.PushRecipients | src/Molecule.cpp:213-237 | the recipient loop: the atoms pushed before the first amount that does not read, or all of them and the total, without overflow |
| Molecule.Molecule.InitValues | src/Molecule.cpp:186-261 | the atoms appended, and those left behind on a bad amount or balance |
| Molecule.Molecule.InitDepositBuffer | src/Molecule.cpp:266-331 | the atoms appended, and the two left behind when balance or amount does not read |
| Molecule.Molecule.InitWithdrawBuffer | src/Molecule.cpp:337-401 | the atoms appended, and those left behind on a bad amount or balance |
| Molecule.Molecule.InitTokenFusion | src/Molecule.cpp:507-569 | the atoms appended; nothing changes on any error |
| Molecule.Molecule.PlanFusion | src/Molecule.cpp:509-548 | the order of the fusion's errors, the fused units in caller order, and the balance |
| Molecule.ResolveUnits | src/Molecule.cpp:513-524 | every id resolved in order, or the first unknown one an error |
| Molecule.Partition | src/Molecule.cpp:530-538 | sent and kept units in source order |
| Molecule.Molecule.Sign | src/Molecule.cpp:769-848 | new bundle, hash and fragments, what is already written when the key fails, and the position returned |
| Molecule.SignatureChunks | src/Molecule.cpp:791-835 | the chains, the optional compression and the cut compute the specified fragments |
| Molecule.NormalizedHash | src/Molecule.cpp:1377-1379 | enumerate and normalize of a signable hash give its 64 normalized symbols |
| Molecule.Molecule.VerifyMolecularHash | src/Molecule.cpp:1091-1101 | the hash comparison, false without atoms or hash |
| Molecule.Molecule.VerifyOts | src/Molecule.cpp:1365-1446 | which exception is thrown, or acceptance |
| Molecule.Molecule.Verify | src/Molecule.cpp:1023-1050 | the conjunction of the three checks, exceptions counting as failure |
| Molecule.Molecule.VerifyContinuId | src/Molecule.cpp:1052-1059 | a USER-signed molecule must carry an I atom |
| Molecule.Molecule.Check | src/Molecule.cpp:1061-1082 | which failure is reported first |
| Molecule.Molecule.ToJson | src/Molecule.cpp:855-950 | the JSON value written, or the error of an unreadable source balance |
| Molecule.Molecule.JsonToObject | src/Molecule.cpp:957-1021 | a new molecule with the fields read, without wallets, or the first error |
| Client.Submit | src/KnishIOClient.cpp:342-364 | what submitMolecule has signed when it sends, the verdict of the check that can stop it, the error of writing a balance that is no int, and otherwise the JSON sent |
| Client.ReportedErrors | src/KnishIOClient.cpp:350-360 | which kind of error a failed check becomes |
| Client.SentAndRead | src/KnishIOClient.cpp:362-364 | an unversioned molecule that is sent can be read back if and only if all atoms have position, address and isotope, and then verify gives the same result |
| WireMolecule.WalletsErased | src/KnishIOClient.cpp:362-364 | erasing the wallets leaves the same JSON whatever the wallets were, and writing fails only for the source balance |
| Client.Transfer | src/KnishIOClient.cpp:664-725 | transferToken builds and signs a molecule that verify accepts and whose atoms sum to zero when balance and amount are ints; it is stopped for a USER wallet and sent otherwise; beyond int it throws out of range; each atom is booked for its own wallet (`ValuesPostings`), and three different addresses get -b, v and b - v |
| Client.TransferMany | src/KnishIOClient.cpp:728-804 | transferTokens builds and signs such a molecule for any number of recipients; it is stopped for a USER wallet, otherwise sent if and only if the balance is an int, and out of range if not; each atom is booked for its own wallet |
| Client.DepositBuffer | src/KnishIOClient.cpp:861-899 | the same for depositBufferToken; booked as `DepositPostings` |
| Client.WithdrawBuffer | src/KnishIOClient.cpp:902-952 | the same for withdrawBufferToken, for any number of recipients; booked as `WithdrawPostings` |
| Client.FuseToken | src/KnishIOClient.cpp:1001-1036 | the same for fuseToken whenever the fusion's plan has no error; otherwise no atom is built and that error is returned; booked as `FusionPostings` |
| Wire.JsonToAtom | src/Atom.cpp:35-177 | the field loop reads every field by its own rule for missing, null, typed and empty values |
| ParsedAtom.AtomIsRead | src/Atom.cpp:57-174 | an atom is read if and only if its fields have the right types |
| ParsedAtom.FieldsAreRead | src/Atom.cpp:64-146 | every text comes from the field of its name, and a mark is set exactly for a field that is "" |
| ParsedAtom.NumbersAreRead | src/Atom.cpp:148-174 | time, index and version |
| ParsedAtom.ParsedView | src/Atom.cpp:35-231 | the view of an atom that was read shows each text field as the JSON has it: null or missing as null, an optional "" as "" |
| ParsedAtom.ParsedMetaShown | src/Atom.cpp:35-231 | and its meta item by item |
| Wire.AtomRoundTrip | src/Molecule.cpp:875-924 | every atom comes back up to null meta items and empty-field marks |
| WireMolecule.MoleculeRoundTrip | src/Molecule.cpp:855-1021 | writing succeeds if and only if the balance prints; reading back succeeds if and only if all atoms have position, address and isotope, and then gives every field back |
| WireMolecule.WalletsWritten | src/Molecule.cpp:929-947 | the wallets are written with address, position and token, only the source with its balance |
| WireMolecule.BalanceWritten | src/Molecule.cpp:936 | the balance written is 0 without one, else the int it denotes, or an error |
| ParsedAtom.MoleculeIsRead | src/Molecule.cpp:957-1021 | a molecule is read if and only if its texts have the right types and every atom can be read and has position, address and isotope; its fields are those of the JSON |
| WireMolecule.FusionNotReadable | src/Molecule.cpp:957-1021 | a fusion molecule that is written is never read back: its burn atom has no position and no address |
| WireMolecule.WireViewExact | src/Atom.cpp:195-231 | the view of an atom survives if and only if it carries no effective parsing mark |
| WireMolecule.WireViewsExact | src/Atom.cpp:179-234 | the same for whole molecules |
| WireMolecule.WireKeepsHash | src/Atom.cpp:236-284 | the hash survives unless all atoms are versioned, and then when no atom carries such a mark |
| WireMolecule.WireInputExact | src/Atom.cpp:236-241 | for versioned atoms whose two views are not printed as one text, the hashed text survives if and only if no atom carries such a mark |
| WireMolecule.WireKeepsVerdict | src/Molecule.cpp:855-1050 | a molecule read back has the same hash and the same verify result, accepted or rejected |
| Calendar.CivilIsCount | src/Molecule.cpp:1106-1114 | the day formula counts whole years from 1970 in either direction, whole months and days |
| Calendar.NextDayCounts | src/Molecule.cpp:1106-1114 | 0 at 1970-01-01, and each valid date is followed by the next number |
| Calendar.DaysOrdered | src/Molecule.cpp:1106-1114 | day numbers are ordered as the dates are, and equal only for equal dates |
| Calendar.StampExact | src/Molecule.cpp:1116-1133 | a text parses to a stamp if and only if it is that stamp printed and within the ranges checked |
| Calendar.StampVector | src/Molecule.cpp:1116-1148 | a literal timestamp with fraction and offset has its published milliseconds |
| Calendar.TimesAreAdmissible | src/Molecule.cpp:1124-1128 | which field values are accepted, and that only a day past the end of its month and second 60 are no real time |
| Calendar.SameMillisIsSameInstant | src/Molecule.cpp:1116-1148 | two stamps of real dates have the same milliseconds if and only if they denote the same instant |
| Calendar.LeapSecondIsNextMinute | src/Molecule.cpp:1127-1148 | second 60 is read as the next minute |
| Calendar.FractionIsFloor | src/Molecule.cpp:1130-1135 | the fraction is cut to milliseconds, not rounded |
| Calendar.SignedTimestampIdempotent | src/Molecule.cpp:1277-1294 | normalizing a non-empty text twice changes nothing |
| Calendar.OnlyStampsChange | src/Molecule.cpp:1277-1294 | every non-empty text is kept unless it is an admissible timestamp |
| Calendar.TimestampNormalized | src/Molecule.cpp:1277-1289 | every admissible stamp becomes its milliseconds in decimal |
| Calendar.SameTextSameMillis | src/Molecule.cpp:1277-1289 | two stamps become the same text if and only if they have the same milliseconds |
| ContinuId.DetectIsByDerivation | src/Wallet.cpp:111-129 | version detection by deriving keys is detection on the secret's table of addresses, used by the runs below |
| ContinuId.DerivedAddresses | src/Wallet.cpp:214-244 | the addresses of a secret are well formed, and a position collides if and only if its two keys have one address |
| ContinuId.DetectExact | src/Wallet.cpp:111-129 | detection finds a version with that address, and the one it was made at if and only if the position does not collide or that version is tried first |
| ContinuId.BindExact | src/KnishIOClient.cpp:432-447 | binding and pointer version are right if and only if the client's own version is, or an address is served and the position does not collide |
| ContinuId.ForeignAddress | src/KnishIOClient.cpp:432-447 | a served address of neither version is an error when binding, and no version for a login |
| ContinuId.HeadServed | src/KnishIOClient.cpp:399-417 | a response serves a head if and only if it has a position of 64 characters under data.ContinuId; the address is that beside it, or empty |
| ContinuId.DetectionRecoversVersion | src/KnishIOClient.cpp:391-426 | in every reachable state every client that reads the head signs at its address, and knows the version it was made at if and only if the head does not collide or that version is its own |
| ContinuId.HeadVersionIsHighest | src/KnishIOClient.cpp:428-430 | after any run in which no position that signed collides, the head's version is the highest of its start and the accepted clients' versions |
| ContinuId.VersionNeverDecreases | src/KnishIOClient.cpp:622-640 | no step of such a run lowers the head's version |
| ContinuId.ReadThenSubmitIsAccepted | src/KnishIOClient.cpp:622-640 | in every reachable state reading the head and submitting is accepted and moves the head on, to no lower version than the client |
| ContinuId.SpentMoveIsRejected | src/KnishIOClient.cpp:1159-1168 | in every reachable state a prepared molecule at a spent position is rejected |
| ContinuId.NoPositionSignsTwice | src/KnishIOClient.cpp:622-640 | after any run no position has signed two accepted molecules |
| ContinuId.MadeWalletIsOwn | src/Wallet.cpp:28-50 | the wallet a client makes satisfies the address condition of verification |

## Left out

- SHAKE256, ML-KEM, AES-GCM, PBKDF2, libsodium and OpenSSL: SHAKE256 is an uninterpreted function of known output length, the others are not needed.
- The kcore bridge: an optional backend; the plain loops are modelled.
- HTTP, GraphQL text, retries, response classes, authentication tokens: the ContinuID model has reading the head and acceptance as steps.
- The validator's side of acceptance: not part of this repository; the model accepts a molecule exactly when it signs at the current head.
- Failed head queries, and the login fallback to a fresh AUTH wallet: both start from a wallet at the client's own version, so the runs do not include them.
- Parsing and printing of JSON text, string escaping and UTF-8: JSON is a datatype, and a value that is printed and parsed again is taken to be itself.
- Served molecules (`fromServerData`, `verifyFromServerData`): a translation in front of `jsonToObject` and `check`.
- The other builders (`initTokenCreation`, `initMeta`, `initWalletCreation`, `initShadowWalletClaim`, `initTokenReplenish`, `initAuthorization`): no value moves between atoms that a conservation law would relate.
- Secret storage, memory wiping, constant-time behaviour, random generation, threads.
- Vectors of atoms and units are sequence values held in fields; a C++ reference into such a vector is not modelled.
- Base64.ToBase64: shifts and the bitwise or on 32-bit words are arithmetic and the function `Or` with an explicit wrap; the same holds for `BaseConvert` and `BigInt`.
- Chunks.ChunkSubstr: the piece count is an exact quotient; `std::ceil` on doubles agrees for texts below 2^53 characters.
- Conservation.VerifyTokenIsotopeV: a parsed value is a finite real, an infinity or not a number; rounding is whatever `fl.add` does.
- Conservation.VerifyCrossIsotopeConservation: as above; `long double` addition is the same uninterpreted `fl.add`.
- Client.Transfer: starts from the wallets that the operation has prepared (units already split, balance found sufficient) and ends with the JSON that would be sent; balance and amounts are canonical decimal integers up to 2^53. The same holds for the other client operations.
- Molecule.Molecule.InitValue: the order in which the two numbers of a difference are read is left open by C++; balance first is modelled, here and in InitDepositBuffer.
- Molecule.Molecule.InitValues: there must be an amount per recipient and no overflow of the running total, since the source indexes and adds without a check; the same holds for InitWithdrawBuffer.
- Wallet.Wallet.SplitUnitsMulti: the recipients are distinct objects, as the elements of a vector of wallets are.
- Wire.JsonToAtom: the loop's switch is split by kind of field into five methods.
- Calendar.CivilIsCount: years are unbounded integers, so the wrap-around of `long long` for years no caller can pass is not modelled.
- Calendar.StampExact: the pattern is modelled as the language it accepts, not as the regular-expression engine.
- ContinuId.HeadVersionIsHighest: heads are assumed to be wallets of the one secret, and generated positions to be fresh, here and in the other run theorems.
