# Verified kernels of the interchain test harness

The repository drives chains in containers, but several of its parts are plain algorithms whose correctness does
not depend on any chain. This project models those parts in Dafny and proves what they promise for all inputs.

| file | what it models |
|---|---|
| `Bytes.dfy` | bytes, big- and little-endian words, `Option` and `Result` |
| `Merkle.dfy`, `MerkleBinding.dfy`, `MerkleLengths.dfy`, `MerkleMembership.dfy` | the binary Merkle tree of the reward and inventory examples: root, inclusion proof, verifier, what a root binds, lists of different lengths, and what an accepted proof says of its leaf |
| `Pallas.dfy` | reduction of a 256-bit digest modulo the Pallas prime, on byte arrays with a borrow chain |
| `Lnpr.dfy` | the LNPR proposal record and the lookup of its slot in a block |
| `Base64.dfy`, `Base64Encoders.dfy`, `Base64Decoders.dfy` | the independently written Base64 encoders and decoders against section 4 of RFC 4648 |
| `BlockTxs.dfy` | recovering transactions from hex or Base64 text |
| `Join.dfy` | JOIN and LEAV registrations and the identity looked for in a certificate |
| `Protobuf.dfy` | the two protobuf wire writers and a schema-free reader |
| `TomlMerge.dfy` | the deep merge of JSON overrides into a TOML configuration |
| `GenesisPipeline.dfy` | collecting genesis transactions from private nodes and distributing the genesis file |
| `GenesisAccounts.dfy` | injecting pre-funded accounts into a genesis document |
| `DummyStwo.dfy` | the 18-byte placeholder proof checker |
| `BraceMatch.dfy` | the brace matcher of the proto text parser |

How the code is rendered:

- Loops and in-place updates of the source are methods with loops, proved equal to a specification function; the
  theorems are lemmas about those functions, or `ensures` clauses of methods that chain several operations.
  A growing `Vec` is a sequence that the loop reassigns; where the source hands one buffer, table, node or genesis
  document to several writers it is a class.
- Shifts, masks and ORs of disjoint bits are written as multiplication, division, remainder and sum, with the
  truncation to 8, 32 or 64 bits written out.
- Text is its UTF-8 bytes. `str::trim` is modelled on all Unicode whitespace characters.
- The pair hash of the Merkle tree is an arbitrary function. A collision always exists, so binding is stated with a
  computed one: either the data are equal, or a given function returns two different pairs of children with the
  same parent.
- A JSON number is what its two accessors return; a float is its bit pattern.

Some promises hold only under a condition, which is proved in both directions:

- For any pair hash, the Merkle root binds non-empty lists of m and n leaves exactly when m = n
  (`MerkleLengths.RootBindsExactlyEqualLengths`); for any two different lengths there are lists with one root
  (`EqualRootsOfLengths`), repeating the last block of an odd number of blocks is one way to get them
  (`RepeatedLastBlockKeepsRoot`), and the empty list shares its root with one zero leaf (`EmptyListIsNotBound`).
- The verifier of the source does not look at the length of a proof. The depth of the tree is exactly the length for
  which, whatever the pair hash, only leaves of the list are accepted, up to a computed collision
  (`MerkleMembership.DepthIsWhatToCheck`). For one given hash it is so wherever hashing some digest with itself does not
  come back to a digest it had (`OnlyTheDepth`), and without any assumption every other length accepts something that
  is listed only if it does come back (`OtherLengthsAcceptMore`). A shorter proof stands for a node above the leaves
  (`ShortProofIsForLevel`, `InnerNodeIsAccepted`), a longer one for something below a leaf (`LongProofIsBelowLeaf`,
  `PreimageOfLeafIsAccepted`). `RootOfZerosIsNoLeaf` is one input, for a hash that is not SHA-256.
- Base64 text of a transaction is recovered exactly when the text does not look like hex; hex text exactly when it
  has at least eight digits, or none (`BlockTxs.Base64TextDecodes`, `BlockTxs.HexTextDecodes`). Which transactions
  have such a text is told from their bytes (`BlockTxs.HexLookingExactly`), and `BlockTxs.ZerosAreMisread` is one.
  The proposal record is still found exactly when no transaction before it has the hex text of a record as its
  Base64 text (`BlockTxs.FindLnprInBlock`).
- Supply minus balances is kept exactly when nothing of the denomination is granted, or the document holds neither
  array, or it holds both and the first supply entry of the denomination, if any, is worth less than 2^64 and not
  below zero (`GenesisAccounts.SupplyIsConserved`). A larger supply is read as zero and lost
  (`GenesisAccounts.LargeSupplyIsLost`).
- An encoded LNPR blob comes back, with its subjects and its list cut to their field widths, exactly when its counted
  proofs have 32-bit lengths (`Lnpr.EncodedBlobDecodes`).

## Model

| member | source | states |
|---|---|---|
| Merkle.MerkleRoot | examples/loyalty_rewards.rs:187-209 | The loop over levels, with the last node of an odd level hashed with itself, computes the recursive tree root; the empty list gives the zero digest and one leaf is its own root |
| Merkle.MerkleRootNoSingleLeafBranch | examples/loyalty_rewards_zkjwt.rs:24-43 | The variant without the single-leaf branch computes the same root for every list |
| Merkle.HashLevel | examples/marketplace_inventory_offline.rs:29-38 | One pass over a level gives one parent for each pair of neighbours |
| Merkle.PaddingIsInlineDuplication | examples/loyalty_rewards.rs:221-235 | Padding an odd level in place and duplicating its last node inline give the same next level |
| Merkle.ProvableExactly | examples/loyalty_rewards.rs:221-229 | The indices for which the slice access of the proof builder is in range, in both directions |
| Merkle.ProofTurn | examples/loyalty_rewards.rs:221-237 | One turn of the proof loop emits the sibling in the padded level with its side, and the next level |
| Merkle.MerkleProof | examples/loyalty_rewards.rs:213-240 | The proof loop collects the siblings on the way to the root; called for every index at which no slice access is out of range |
| Merkle.VerifyMerkleProof | examples/loyalty_rewards.rs:243-253 | The verifier accepts exactly when climbing from the leaf reaches the root |
| Merkle.ProofReachesRoot | examples/loyalty_rewards.rs:187-253 | Completeness: climbing from any leaf with the proof built for it ends at the root, at every tree size |
| Merkle.RootOfSubtrees | examples/loyalty_rewards.rs:187-209 | The tree from the top: the root over 2^k leaves and at most as many to their right is the hash of the two subtree roots, left one first, the right one raised to the same height |
| Merkle.ProveAndVerify | examples/marketplace_inventory_offline.rs:96-102 | Building the root and a proof and verifying it succeeds for every list and index in range |
| Merkle.ProofShape | examples/loyalty_rewards.rs:220-240 | A proof for n leaves has L entries with 2^(L-1) < n <= 2^L, and its directions are the complemented binary digits of the index, so they give the index back |
| Merkle.FlagsDependOnSizeOnly | examples/loyalty_rewards.rs:221-237 | Length and directions of a proof depend on the number of leaves and the index alone |
| MerkleBinding.RootBindsLeaves | examples/marketplace_inventory_offline.rs:109-110 | Two lists of one length with equal roots are equal, or the walk over both trees returns a collision |
| MerkleLengths.RootBindsExactlyEqualLengths | examples/loyalty_rewards.rs:185-209 | For any pair hash and positive m and n: equal roots of m and n leaves mean equal lists, or a computed collision, exactly when m = n |
| MerkleLengths.EqualRootsOfLengths | examples/loyalty_rewards.rs:185-209 | For any two positive lengths there are lists of these lengths with one root |
| MerkleLengths.RepeatedLastBlockKeepsRoot | examples/loyalty_rewards.rs:196-207 | Repeating the last 2^k leaves keeps the root when the list is an odd number, three or more, of blocks of 2^k leaves |
| MerkleLengths.EmptyListIsNotBound | examples/loyalty_rewards.rs:188-193 | The empty list and the list of one zero leaf have one root, of 32 zero bytes |
| MerkleBinding.EqualClimbsAreEqual | examples/loyalty_rewards.rs:243-253 | Two climbs with the same directions that end at one node start at one leaf with one proof, or a collision is computed |
| MerkleBinding.RootBindsProofs | examples/loyalty_rewards.rs:243-253 | Soundness: an accepted leaf and proof with the directions of an index are the leaf and the proof of that index, or a collision is computed |
| MerkleBinding.UpdateAndVerifyStale | examples/marketplace_inventory_offline.rs:91-119 | After a leaf changed, the root moved and the stale leaf with its stale proof is refused by the new root, unless a collision is computed |
| MerkleMembership.AcceptedLeafIsListed | examples/loyalty_rewards.rs:243-253 | Membership: whatever the directions, an accepted proof of the tree's depth has one of the leaves as its leaf, or a collision is computed |
| MerkleMembership.DepthIsWhatToCheck | examples/loyalty_rewards.rs:243-253 | The depth is exactly the proof length for which, with every pair hash, the verifier accepts only leaves of a non-empty list, up to a computed collision |
| MerkleMembership.OnlyTheDepth | examples/loyalty_rewards.rs:243-253 | The same for one pair hash, wherever hashing some digest with itself gives no digest twice in depth plus twice the length steps |
| MerkleMembership.OtherLengthsAcceptMore | examples/loyalty_rewards.rs:243-253 | For every other length and any pair hash something is accepted that is listed exactly when hashing a digest with itself comes back to it after the missing or surplus steps; without repetitions it is not listed and no collision is found |
| MerkleMembership.ShortProofIsForLevel | examples/loyalty_rewards.rs:243-253 | An accepted proof k steps short of the depth is for a node k levels above the leaves, or a collision is computed |
| MerkleMembership.InnerNodeIsAccepted | examples/loyalty_rewards.rs:243-253 | On the way from every leaf the node at every height is accepted with the rest of the path |
| MerkleMembership.LongProofIsBelowLeaf | examples/loyalty_rewards.rs:243-253 | The first k steps of an accepted proof k steps longer than the depth lead to a leaf, or a collision is computed |
| MerkleMembership.PreimageOfLeafIsAccepted | examples/loyalty_rewards.rs:243-253 | Whatever climbs to a leaf is accepted with those steps before the proof of the leaf |
| MerkleMembership.RootOfZerosIsNoLeaf | examples/loyalty_rewards.rs:243-253 | With one pair hash, the root of two zero leaves is accepted with the empty proof, is no leaf, and no collision is found |
| MerkleMembership.EmptyTreeAcceptsZero | examples/loyalty_rewards.rs:188-190 | The tree of no leaves accepts the zero digest with the empty proof |
| Pallas.ConstantIsModulus | examples/hashmerchant.rs:57-62 | The 32 constant bytes are the big-endian Pallas base-field prime |
| Pallas.GeP | examples/hashmerchant.rs:75-81 | The byte-wise comparison decides whether the number is at least the prime |
| Pallas.Sub256 | examples/hashmerchant.rs:83-92 | The borrow chain in wrapping 16-bit arithmetic is subtraction modulo 2^256 |
| Pallas.ReduceModP | examples/hashmerchant.rs:69-73 | For every 32-byte input the result is the value modulo the prime, after exactly the quotient's number of subtractions, at most three |
| Lnpr.EncodeLnpr | examples/lean_val.rs:91-111 | The loop writes prefix, version, period, 16-bit count and one length-prefixed record a subject, truncating as the field widths do |
| Lnpr.BlobLayout | examples/lean_val.rs:91-98 | The text "LNPR", the version byte 1, the period and the count as big-endian words at fixed places, then the records |
| Lnpr.SubjectLayout | examples/lean_val.rs:99-109 | A record byte by byte: the length, the first 255 bytes of the subject, the weight in two's complement, the proof's length modulo 2^32, the proof |
| Lnpr.SubjectsFollowEachOther | examples/lean_val.rs:99-109 | The records of a list follow each other in order |
| Lnpr.DecodeLnpr | examples/lean_val.rs:114-155 | Total on every byte string with all slices in range, and equal to the recursive reading |
| Lnpr.SubjectRoundTrip | examples/lean_val.rs:99-109 | A record with a proof shorter than 2^32 is read back with its subject cut to 255 bytes, negative weights included |
| Lnpr.EncodedBlobDecodes | examples/lean_val.rs:91-155 | Whatever follows it, an encoded blob decodes to the blob with subjects cut and the list cut to its length modulo 65536, exactly when the counted proofs are shorter than 2^32 |
| Lnpr.DecodesExactlyToWhatWasEncoded | examples/lean_val.rs:114-155 | Bytes decode to a blob exactly when the blob is within the field widths and its encoding starts the bytes; so decoding is canonical and injective up to trailing bytes |
| Lnpr.RoundTripIsExactWithinBounds | examples/lean_val.rs:91-155 | An encoded blob comes back unchanged exactly when it is within the field widths |
| Lnpr.HmveDoesNotDecode | examples/lean_val.rs:61-68 | A vote-extension record is never read as an LNPR record |
| Lnpr.FindLnpr | examples/lean_val.rs:157-164 | Returns the first decodable record and its index, and the expected index exactly when the transaction in that slot exists and decodes |
| Lnpr.ComposedBlock | examples/lean_val.rs:61-68 | A record in front, or behind a vote extension, is found in that slot, and that is the slot expected |
| Base64.EncodeIsRfc4648 | ict-rs/src/chain/cosmos.rs:1183-1207 | The byte-group form of all encoders is section 4 of RFC 4648, stated on bits: six bits a digit, zero bits on the right, '=' up to a multiple of four |
| Base64.PadAsText | ict-rs/src/chain/cosmos.rs:1183-1207 | The padding character is '=' |
| Base64.UnpackInvertsSextets | examples/trustless_builder.rs:1082-1093 | Packing the sextets of any bytes gives the bytes back |
| Base64.ValuesOfEncoding | examples/trustless_builder.rs:1066-1081 | The digits before the first '=' of canonical text are the sextets of the data |
| Base64.EncodingShape | ict-rs/src/chain/cosmos.rs:1187-1205 | Canonical text has four characters for every three bytes begun, digits first and padding last |
| Base64Encoders.TableIsTheStandards | examples/trustless_builder.rs:1041-1041 | The alphabet literal is Table 1 of RFC 4648 |
| Base64Encoders.TwoPadsVector | examples/trustless_builder.rs:1040-1063 | The byte of "r" is encoded as "cg==" |
| Base64Encoders.EncodeChunks | ict-rs/src/chain/cosmos.rs:1183-1207 | The chunked encoder with a 32-bit accumulator (as in both polytone examples) encodes every byte string |
| Base64Encoders.EncodeBytes | examples/trustless_builder.rs:1040-1063 | The encoder on shifted and masked bytes encodes every byte string |
| Base64Encoders.EncodeByRemainder | ict-rs-cw-orch/examples/lean_testnet_gates.rs:757-790 | The encoder that matches on the bytes left encodes every byte string |
| Base64Decoders.StrictTurn | examples/lean_val.rs:337-361 | One turn of the strict loop: which texts are refused, which end the loop, and what a full group adds |
| Base64Decoders.ValuesExactly | examples/trustless_builder.rs:1066-1081 | Values are read exactly when all bytes before the first '=' are digits, and are the values of those digits |
| Base64Decoders.StrictExactly | examples/lean_val.rs:322-365 | A text without whitespace is decoded exactly when all bytes before the first '=' are digits and, without any '=', a multiple of four in number |
| Base64Decoders.OnlySpacesAreDropped | examples/lean_val.rs:331-335 | Space, tab, line feed, form feed and carriage return are dropped anywhere; all else stays in order |
| Base64Decoders.TrimDropsOuterSpaces | examples/trustless_builder.rs:1066-1066 | Trimming drops any whitespace characters around a text that neither starts nor ends with one |
| Base64Decoders.SpaceCharacters | examples/trustless_builder.rs:1066-1066 | The characters trimmed are the UTF-8 forms of the code points with the property White_Space |
| Base64Decoders.DecodeStdB64 | examples/lean_val.rs:322-365 | For every text: whitespace is dropped, '=' ends the text, an unfinished group without '=' or a bad byte before it gives nothing |
| Base64Decoders.CollectValues | examples/trustless_builder.rs:1067-1081 | Collects the digits before the first '=' and refuses any other byte before it |
| Base64Decoders.DecodeTrimmed | examples/trustless_builder.rs:1065-1095 | For every text: the trimmed text's digits unpacked, leftovers dropped |
| Base64Decoders.BuildTable | examples/hashmerchant_ve_oracle.rs:256-260 | The 256-entry table holds each digit's value and 0xff elsewhere |
| Base64Decoders.ShiftedBuffer | examples/hashmerchant_ve_oracle.rs:272-277 | A 32-bit buffer whose top bits fall off still yields the byte made of the pending bits and the new sextet |
| Base64Decoders.DecodeStream | examples/hashmerchant_ve_oracle.rs:255-284 | For every text the streaming decoder agrees with unpacking the digits before '=', and gives nothing where that is empty |
| Base64Decoders.DecodePk | ict-rs-cw-orch/examples/lean_testnet_gates.rs:313-358 | For every text: whitespace and '=' dropped, bad digits refused in the first two places of a group and read as zero in the last two |
| Base64Decoders.KeyTextOf | ict-rs-cw-orch/examples/lean_testnet_gates.rs:324-329 | Whitespace around a key's text, and padding and ASCII whitespace anywhere in it, are left out |
| Base64Decoders.LenientExactly | ict-rs-cw-orch/examples/lean_testnet_gates.rs:330-356 | A key's text is refused exactly for a bad digit in the first two places of a group; other bad digits count as 'A' |
| Base64Decoders.LeftoverByZero | ict-rs-cw-orch/examples/lean_testnet_gates.rs:332-352 | A lone leftover digit counts as if the digit of zero followed |
| Base64Decoders.LenientOfDigits | ict-rs-cw-orch/examples/lean_production_e2e.rs:245-262 | On digits alone the key decoder is plain unpacking, plus one extra byte for a lone leftover digit |
| Base64Decoders.CanonicalTextDecodes | examples/lean_val.rs:322-365 | Every decoder's reading of the canonical text of any bytes is those bytes |
| Base64Decoders.EncodeAndDecodeEverywhere | examples/hashmerchant_ve_oracle.rs:255-284 | All encoders give the standard's text and all decoders give the data back, the streaming one on non-empty data |
| BlockTxs.DecodeTxBytes | examples/lean_val.rs:309-319 | Hex is tried first on texts of eight or more hex digits of even number, Base64 otherwise |
| BlockTxs.OuterSpacesAreIgnored | examples/lean_val.rs:310-310 | Whitespace around a text does not matter, whichever way it is read |
| BlockTxs.HexValueExactly | examples/lean_val.rs:311-316 | The hex digits are 0-9, a-f and A-F, and their values are their places |
| BlockTxs.HexBytesByDigits | examples/lean_val.rs:311-316 | Each byte is sixteen times the first of its two digits plus the second |
| BlockTxs.HexTextDecodes | examples/lean_val.rs:309-319 | Hex text gives the transaction back exactly when it has four or more bytes, or none |
| BlockTxs.Base64TextDecodes | examples/lean_val.rs:309-319 | Base64 text gives the transaction back exactly when the text does not look like hex |
| BlockTxs.HexLookingExactly | examples/lean_val.rs:309-311 | The transactions whose Base64 text looks like hex: six or more bytes, a multiple of three, and every six-bit group that of a hex digit |
| BlockTxs.HexTextHasADouble | examples/lean_val.rs:309-319 | For every transaction of even length from four bytes on, another one has its hex text as Base64 text and is misread as it |
| BlockTxs.ZerosAreMisread | examples/lean_val.rs:309-319 | A six-byte transaction whose Base64 text is eight zeros is not recovered |
| BlockTxs.RecordTextDecodes | examples/lean_val.rs:16-17 | Base64 text of every LNPR or HMVE record gives the record back |
| BlockTxs.TextsAreDecodedInOrder | examples/lean_val.rs:380-385 | The texts of a block are decoded one by one in order, and one that does not decode is skipped |
| BlockTxs.BlockIsRecovered | examples/lean_val.rs:380-385 | No transaction of a block is lost, and all are recovered exactly when no text looks like hex |
| BlockTxs.FindLnprInBlock | examples/lean_val.rs:541-561 | Through the texts of a block, the first record of the block is found exactly when no transaction before it has the hex text of a record as its Base64 text, and the expected index is the block's exactly when the first transaction has not the hex text of a vote extension; the found index is the expected one exactly when that slot exists and decodes |
| BlockTxs.RecordsHaveDoubles | examples/lean_val.rs:309-319 | Such transactions exist: one for every record of even length |
| Join.EncodeJoinWithIndex | ict-rs-cw-orch/examples/lean_testnet_gates.rs:250-269 | By its layout a JOIN reads back as its period, cut subject, weight and the real proof if there is one, for any prover output; the panic on a dummy proof cannot be reached |
| Join.EncodeJoinWithoutProof | ict-rs-cw-orch/examples/lean_production_e2e.rs:201-214 | The production JOIN reads back as its period, cut subject and weight, with an empty proof |
| Join.JoinIsCanonical | ict-rs-cw-orch/examples/lean_testnet_gates.rs:250-269 | Bytes read as the JOIN of a period, subject, weight and proof exactly when the subject has at most 255 bytes and they are the JOIN written for them |
| Join.KeptProofs | ict-rs-cw-orch/examples/lean_testnet_gates.rs:271-297 | The proof kept is a prover output that starts with "STWO" and holds "DSTW" nowhere |
| Join.EncodeLeaveRecord | ict-rs-cw-orch/examples/lean_production_e2e.rs:216-228 | The period and the subject cut to 255 bytes are read back from the LEAV |
| Join.LeaveIsCanonical | ict-rs-cw-orch/examples/lean_production_e2e.rs:216-228 | Bytes read as the LEAV of a period and a subject exactly when the subject has at most 255 bytes and they are the LEAV written for them |
| Join.LeaveIsInjective | ict-rs-cw-orch/examples/lean_production_e2e.rs:216-228 | Two LEAVs are equal exactly when period and cut subject are |
| Join.JoinSubjectB64 | ict-rs-cw-orch/examples/lean_testnet_gates.rs:741-755 | On any bytes: nothing for short, untagged or truncated input, else the Base64 of the subject |
| Join.JoinSubjectIsPrefixed | ict-rs-cw-orch/examples/lean_testnet_gates.rs:741-755 | A subject is found exactly when the bytes are "JOIN", nine more, and a length-prefixed subject, whatever follows |
| Join.JoinNamesItsSubject | ict-rs-cw-orch/examples/lean_testnet_gates.rs:741-755 | A JOIN of any period, weight and proof names its subject cut to 255 bytes; a LEAV names nobody |
| Join.JoinIsInjective | ict-rs-cw-orch/examples/lean_testnet_gates.rs:250-269 | Equal JOINs agree in period, cut subject, weight and proof |
| Join.RegisterKey | ict-rs-cw-orch/examples/lean_testnet_gates.rs:813-819 | Decoding a key's text, encoding a JOIN and reading its subject gives back the text exactly when it is canonical Base64 of at most 255 bytes |
| Join.RegisterCanonicalKey | ict-rs-cw-orch/examples/lean_testnet_gates.rs:647-655 | The canonical text of a key of at most 255 bytes is the identity compared with the certificate |
| Protobuf.PbVarint | examples/hashmerchant.rs:98-106 | Writes the varint of every 64-bit value |
| Protobuf.ProtoVarint | examples/polytone_any_norick.rs:195-201 | Appends to the caller's buffer the same bytes the other writer returns |
| Protobuf.VarintReadsBack | examples/hashmerchant.rs:98-106 | Varints are self-delimiting: a reader gets the value and what follows |
| Protobuf.VarintBytes | examples/hashmerchant.rs:98-106 | Byte i of a varint holds the i-th seven bits, and the high bit exactly when more follows |
| Protobuf.VarintIsMinimal | examples/hashmerchant.rs:98-106 | No byte string that reads as a value is shorter than its varint |
| Protobuf.VarintLength | examples/hashmerchant.rs:98-106 | A varint fits n bytes exactly when the value has at most 7n bits |
| Protobuf.TenBytesSuffice | examples/hashmerchant.rs:125-127 | Every u64 takes at most ten bytes, and -1 takes all ten |
| Protobuf.WritersAgreeOnSmallFields | examples/polytone_any_norick.rs:203-210 | The two length-delimited writers agree exactly on field numbers below 2^29, because one shifts the tag in 32 bits |
| Protobuf.FieldsReadBack | examples/hashmerchant.rs:108-127 | A schema-free reader recovers every field of a message, whatever follows it |
| Protobuf.FieldLayout | examples/hashmerchant.rs:108-127 | A field starts with eight times its number plus its wire type, 2 for length-prefixed bytes and 0 for numbers |
| Protobuf.WriteHashData | examples/hashmerchant.rs:130-146 | A reader finds the runtime id under 1, the chain uid under 2, the algorithm under 3, the root under 4, the height under 5 and the bit pattern of the block time under 6, and nothing else |
| Protobuf.WriteExecuteContract | examples/polytone_any_norick.rs:212-218 | A reader finds the sender under 1, the contract under 2 and the message under 3, and nothing else |
| Protobuf.HashDataIsInjective | examples/hashmerchant.rs:130-146 | Equal vote-extension messages have equal arguments, negative block times included |
| Protobuf.ExecuteContractIsInjective | examples/polytone_any_norick.rs:212-218 | Equal execute-contract messages have equal arguments |
| TomlMerge.MergeJsonIntoToml | ict-rs/src/chain/cosmos.rs:1131-1153 | The in-place merge terminates on every value and leaves what the recursion on values computes |
| TomlMerge.JsonValueToToml | ict-rs/src/chain/cosmos.rs:1156-1180 | Each kind of JSON value becomes its own kind of TOML value with the same content, integers before floats; a null and a number that is neither have no conversion |
| TomlMerge.ConvertedFrom | ict-rs/src/chain/cosmos.rs:1156-1180 | The same in both directions: what a TOML value of each kind was converted from |
| TomlMerge.MergeAtKey | ict-rs/src/chain/cosmos.rs:1131-1153 | The merge acts on each key by itself: leaves overwrite, sub-objects merge into tables or new tables and are lost on other values, nulls leave no trace |
| TomlMerge.ConvertedObjectByKey | ict-rs/src/chain/cosmos.rs:1173-1177 | Merging into an empty table is conversion, and holds at each key the conversion of that field |
| TomlMerge.ArrayKeepsOrder | ict-rs/src/chain/cosmos.rs:1169-1172 | A converted array keeps the order of its items and loses those without a conversion |
| TomlMerge.MergedAtPath | ict-rs/src/chain/cosmos.rs:1131-1153 | At every path where the object has a value: the rule for one key if all proper prefixes are tables or absent, else nothing |
| TomlMerge.LeafReadsBack | ict-rs/src/chain/cosmos.rs:1144-1149 | Read-back: a convertible leaf at an open path reads back as its conversion |
| TomlMerge.SubObjectIsLostOnOtherValues | ict-rs/src/chain/cosmos.rs:1137-1142 | A sub-object that meets a value other than a table changes nothing there |
| TomlMerge.UnconvertibleValueLeavesNoTrace | ict-rs/src/chain/cosmos.rs:1146-1148 | A value without a conversion leaves what was at its path |
| TomlMerge.UnmentionedPathIsUnchanged | ict-rs/src/chain/cosmos.rs:1131-1153 | Frame: a path that is not at a value of the object nor below one of its leaves is unchanged |
| TomlMerge.NothingBelowLeaf | ict-rs/src/chain/cosmos.rs:1144-1149 | Below a leaf that was written nothing is left |
| TomlMerge.MergeIsIdempotent | ict-rs/src/chain/cosmos.rs:1131-1153 | Merging the same value twice is merging it once |
| TomlMerge.MergeIgnoresOrder | ict-rs/src/chain/cosmos.rs:1133-1133 | The result does not depend on the order in which keys are visited, at any depth |
| GenesisPipeline.StrictShellDecodesEncodings | ict-rs/src/chain/cosmos.rs:577-579 | What is asked of a node's `base64 -d`, that it decodes canonical text followed by the newline of `echo`, is met by the strict decoder of the repository |
| GenesisPipeline.CopyOne | ict-rs/src/chain/cosmos.rs:567-587 | One file is copied byte for byte exactly when it is readable, not empty and writable; otherwise no file that can be written changes |
| GenesisPipeline.CopyGentxsToPrimary | ict-rs/src/chain/cosmos.rs:546-590 | Succeeds exactly when every listed file is readable, not empty and writable; then the primary has all of them, later copies winning, and the count is theirs; on an error only files of the source were written, apart from the write that failed |
| GenesisPipeline.CollectGentxs | ict-rs/src/chain/cosmos.rs:382-412 | Succeeds exactly when every other validator's account is added and it contributes files that can all be copied; then the first one's directory is the union and nothing else changed |
| GenesisPipeline.JsonNames | ict-rs/src/chain/cosmos.rs:554-559 | The listed names end in ".json" and do not start with a dot |
| GenesisPipeline.ContributesExactly | ict-rs/src/chain/cosmos.rs:399-408 | A validator contributes exactly when it has JSON files and all are readable, writable at the primary and not empty |
| GenesisPipeline.CollectedFileIsPresent | ict-rs/src/chain/cosmos.rs:546-590 | When all contribute, every listed file is in the union, readable and not empty |
| GenesisPipeline.UnionHoldsTheLastCopy | ict-rs/src/chain/cosmos.rs:382-412 | A name is collected exactly when somebody has it, with the bytes of the last one who does |
| GenesisPipeline.CountsAddUp | ict-rs/src/chain/cosmos.rs:546-590 | The reported counts add up to the files gained exactly when no two sources share a file name |
| GenesisPipeline.DistributeGenesis | ict-rs/src/chain/cosmos.rs:596-614 | Every other node holds the first validator's genesis bytes; a missing file is sent as an empty one |
| GenesisPipeline.FinishGenesis | ict-rs/src/chain/cosmos.rs:463-538 | On success the first validator holds the modifier's answer on the collected genesis with its denomination replaced, or that genesis without a modifier, and there were enough genesis transactions |
| GenesisPipeline.FinalGenesisExactly | ict-rs/src/chain/cosmos.rs:463-538 | There is a final genesis exactly when collecting gives one that parses, has a transaction for every validator, and is accepted by the modifier with its denomination replaced |
| GenesisPipeline.ReplacementReachesTheEnd | ict-rs/src/chain/cosmos.rs:505-538 | What the replacement of the denomination establishes and the modifier keeps, the final genesis has |
| GenesisPipeline.AssembleGenesis | ict-rs/src/chain/cosmos.rs:379-614 | Collecting, finishing and distributing: succeeds exactly when no step stops; then every validator and full node holds the modified genesis made of the union of all genesis transactions, every account was added, and at least one file came from every validator |
| GenesisAccounts.Genesis.AddToSupply | ict-rs/src/chain/akash.rs:150-167 | Adds to the first entry of the denomination or appends one; false on a u64 overflow |
| GenesisAccounts.Genesis.InjectGenesisAccount | ict-rs/src/chain/akash.rs:124-185 | Each array that is present gets its entry: a balance with one coin for each granted denomination, uact before uakt, in canonical decimals; the supply grown in place, new denominations behind, uact first; one base account. Both amounts zero change nothing |
| GenesisAccounts.InjectionEntersGrant | ict-rs/src/chain/akash.rs:124-185 | The same of the function on values that the other results are about |
| GenesisAccounts.NewCoinsHoldGrant | ict-rs/src/chain/akash.rs:126-132 | The coins of a new balance are sorted by denomination and are just what is granted |
| GenesisAccounts.SupplyGrowsByGrant | ict-rs/src/chain/akash.rs:150-167 | Only first entries of granted denominations change, by the amount granted; missing ones are appended in order |
| GenesisAccounts.ToTextIsCanonical | ict-rs/src/chain/akash.rs:128-131 | An amount is written as the one decimal numeral of its value without leading zeros |
| GenesisAccounts.SignsAndZeros | ict-rs/src/chain/akash.rs:157-160 | A plus sign and leading zeros are read over; a negative amount is read as zero |
| GenesisAccounts.Genesis.InjectExtraAccounts | ict-rs/src/chain/akash.rs:334-336 | The loop over all extra accounts |
| GenesisAccounts.ReadsWorthBelowTwoTo64 | ict-rs/src/chain/akash.rs:157-160 | An amount is read as what it is worth exactly from 0 to 2^64 - 1, and as zero otherwise |
| GenesisAccounts.InjectGrants | ict-rs/src/chain/akash.rs:124-185 | Balances grow by what is granted, where the array is present; the supply too, less what the first entry of the denomination was worth beyond what is read of it |
| GenesisAccounts.InjectAllGrants | ict-rs/src/chain/akash.rs:334-336 | Over any list that loss occurs once, with the first grant of the denomination |
| GenesisAccounts.SupplyIsConserved | ict-rs/src/chain/akash.rs:334-336 | Over any list, supply minus balances is kept exactly when nothing of the denomination is granted, or neither array is present, or both are and the first supply entry of the denomination, if any, is worth 0 to 2^64 - 1 |
| GenesisAccounts.LargeSupplyIsLost | ict-rs/src/chain/akash.rs:157-161 | A supply of 2^64 or more is replaced by the amount granted |
| GenesisAccounts.AccountsAreRegistered | ict-rs/src/chain/akash.rs:136-182 | One base account and one balance are appended, in order, for every entry that grants anything, and none for the others |
| GenesisAccounts.OverflowCondition | ict-rs/src/chain/akash.rs:152-161 | The u64 sum overflows, which stops a build with overflow checks, exactly when a supply entry as it is read cannot hold all that is granted |
| DummyStwo.DummyM31Hash | examples/lean_stwo_dummy.rs:180-185 | The stepwise reduction is (3a + 5b + 7) mod (2^31 - 1) |
| DummyStwo.ProveDummy | examples/lean_stwo_dummy.rs:187-197 | The honest proof is the 18-byte claim of the true hash |
| DummyStwo.ClaimLayout | examples/lean_stwo_dummy.rs:187-197 | "DSTW", the bytes 2 and 5, and three little-endian words |
| DummyStwo.VerifyDummy | examples/lean_stwo_dummy.rs:201-229 | Each verdict and each error, in the order of the checks: a verdict exactly for an accepted size and a proof that starts with the claim |
| DummyStwo.Accepts | examples/lean_stwo_dummy.rs:201-229 | Accepted exactly when the size is in range, the first 18 bytes are the honest proof and the claim is the true hash |
| DummyStwo.VerifyTampered | examples/lean_stwo_dummy.rs:274-285 | One changed byte is noticed exactly when it is among the first 18 and differs |
| BraceMatch.ExtractBraceBody | ict-rs-codegen/src/text_parser.rs:90-111 | A body is found exactly when a closing brace matches the consumed open one, and is the balanced text before it |
| BraceMatch.BracesAsText | ict-rs-codegen/src/text_parser.rs:90-111 | The counted characters are the braces |
| BraceMatch.ClosedOnce | ict-rs-codegen/src/text_parser.rs:90-111 | At most one brace closes a block |
| BraceMatch.ExtractPlaced | ict-rs-codegen/src/text_parser.rs:90-111 | A balanced text placed behind an open brace and followed by a closing one is extracted |

## Left out

- Containers, networks, RPC, shell execution, polling, logging and configuration: only a write of decoded bytes to a file is modelled.
- SHA-256, Keccak, RIPEMD, BLAKE3, key derivation, signatures and bech32; the Merkle pair hash is any function.
- Account creation, `collect-gentxs`, the count of its transactions, the denomination replacement, the genesis modifier and `base64 -d`: what they answer enters the genesis model as parameters. The first phase of the pipeline, which is made of the chain's own commands, is not modelled.
- GenesisPipeline.CopyGentxsToPrimary: file names are taken as plain names, without line breaks, slashes or surrounding whitespace, and listing a directory always answers.
- GenesisPipeline.DistributeGenesis: writing a genesis file always takes effect, since the program does not look at the exit code of that command.
- GenesisAccounts.Genesis.AddToSupply: supply and balance entries are coin objects with a denomination; other JSON in those arrays is not represented, and an amount that is no decimal numeral counts as worth nothing.
- GenesisAccounts.OverflowCondition: a build without overflow checks, which would wrap around and write a smaller supply, is not modelled.
- TomlMerge.MergeJsonIntoToml: nested tables are values that are taken out, merged and put back, so references into a nested table are not modelled.
- Merkle.MerkleRoot: digests carry no length, since no property depends on it.
- The hex encoder and decoder of the placeholder-proof example, the root sniffing of the oracle example, JSON lookup helpers, naming helpers and the row hashing of the reward example: they would add only easy members.
- The proto parser's regular expressions, code generation and derive macros; only the brace matcher is modelled.
- The external prover behind a JOIN: its output is an arbitrary optional byte string.
- The key decoder of the production example: the same function as the modelled one, with a loop condition that is written differently and means the same.
