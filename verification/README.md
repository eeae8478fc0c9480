# Verified model of the whatsmeow protocol core

This project models the stateful and algorithmic core of the vendored WhatsApp protocol library under
`whatsmeow-lib` and proves what it promises: round trips of its wire formats, invariants of its protocols over all
runs, and agreement of its caches with simple specifications. Where a promise does not hold on all inputs, the exact
condition is proved instead.

`dafny verify dfyconfig.toml` checks everything.

## How the model is built

Code that computes is a function; code that changes things step by step is a class or a method over arrays, fields
and loops, proved equal to a function, about which the lemmas then speak.

| files | what they model |
|---|---|
| `ByteStrings`, `Collections`, `Jid`, `JidText` | byte strings, fixed-width and decimal numerals, facts about sets and multisets, JIDs and their text |
| `Tokens`, `BinaryNode`, `BinaryFormat`, `BinaryEncoder`, `BinaryDecoder`, `BinaryRoundTrip`, `BinaryPrefix`, `BinaryRefusals`, `BinaryText`, `BinaryShortest`, `BinaryLookup` | the binary XML codec |
| `LtHash`, `AppStateLedger`, `AppState`, `AppStateProcessor`, `AppStateProofs`, `AppStateIntegrity`, `AppStateSend` | app state synchronisation |
| `ReportingToken`, `ReportingTree`, `ReportingFilter` | the reporting-token extractor |
| `FrameSocket`, `FrameReassembly`, `Noise`, `NoiseTranscript` | frames, the Noise handshake and the transport |
| `ResponseWaiters` | requests waiting for their responses |
| `EventBuffer`, `Padding` | the buffer of decrypted events, and message padding |
| `RecentMessages`, `SessionCache`, `GroupMembers`, `ParticipantHash` | the caches and the device-list hash |

Go strings and byte slices are sequences of bytes; shifts and masks are divisions and remainders. Attribute maps are
maps, and `Written` adds to a tree an order in which ranging over its maps visits them, so a statement about all
`Written` trees is one about all orders. A sort that compares only field numbers is any function from a list of
numbers to a sorting permutation. Concurrent code is a state machine over its atomic steps: what is done under one
lock is one step.

Parameters stand for what is not modelled, with only the laws that a lemma names: the token tables (their sizes), the
hash, MAC, cipher, curve and serializer functions (unsealing undoes sealing, parsing undoes serializing, and so on),
the plaintext parser, and the outcome of every operation that can fail.

## Where the code differs from what one would expect

For each of these the exact condition, or every input that shows it, is stated and proved.

- `processData` counts the three length bytes as received payload (`whatsmeow-lib/socket/framesocket.go:175-176`).
  `AS_WRITTEN` is the code; `REORDERED` has the two lines swapped. `AsWrittenReassemblesIff` says when the code as
  written is right, `OneCut` what it does otherwise, `ReorderedReassembles` that the swapped lines are always right.
- The look-back of a patch does not look at the operation, and removals are deleted before additions are inserted; the
  hash follows the index exactly when no index is both SET and REMOVEd, or REMOVEd twice, within a patch
  (`BalancedIff`, `RemovedTwiceMiscounts`).
- `EncodePatch` never looks inside the patch it builds, so it agrees with the decoder exactly on distinct indices
  (`BuilderAgreesIff`, `SetTwiceDisagrees`).
- The comment on `String` says its output can be parsed; that holds exactly under the condition of `ParsePrinted`
  (`ColonIsTakenForDevice`).
- The map of recent messages has no bound for keys without id (`EmptyIdsStay`), and adding a key again does not protect
  it from leaving with its older slot (`HeldIff`, `FirstSlotPutsOut`).
- A nil plaintext is stored as NULL, which reads as an event already processed (`CrashLosesOnlyNil`, `NilIsLost`).
- A plaintext can be cleared from the buffer with no handler having seen it: a version 3 plaintext that does not parse,
  one of an unknown version, and one that parses without an event to dispatch. A version 2 plaintext that does not parse
  is kept (`ClearsUnseenIff`, `FailedParseClears`).
- A second `WithCachedSessions` hides what an earlier cache in the context holds unflushed (`NestedPrefetchIff`,
  `NestedPrefetchLoses`).
- A frame counted by the transport but not delivered leaves the two counters apart (`FrameOpensIff`, `OneLostFrame`).
- `ContainsSession` asks the backing store, so it does show the cache: it misses exactly the first session of an address
  that is not flushed yet (`ContainsIff`, `ContainsBeforeFlush`).
- `writeString` packs at most 127 characters, where the reader would unpack 254, and none with a zero byte: these and no
  other strings have a shorter form than the one written (`ShortestIff`).
- A failed decryption of the handshake uses up an IV, where the Noise Protocol Framework keeps the nonce
  (`DecryptImplements`), and the empty payload of the first message, which the framework hashes, is not hashed
  (`FirstPayloadIsNotHashed`).
- A field of an unknown wire type makes the extractor return nothing, whatever came before it
  (`UnknownWireTypeDropsAll`).
- The text that the device-list hash is taken of does not separate the devices (`TextIdentifies`, `TextCanMislead`).

## Model

| member | source | states |
|---|---|---|
| `BinaryRoundTrip.RoundTrip` | whatsmeow-lib/binary/encoder.go:81-250 | For every tree the writer accepts, every order of visiting its attribute maps and every continuation of the input: reading the encoding gives the canonical tree and stops exactly at its end if and only if no element is tagged "" or "0" and every list length fits 16 bits. |
| `BinaryRoundTrip.MarshalThenUnmarshal` | whatsmeow-lib/binary/node.go:123-139 | `Unmarshal` on what `Marshal` wrote, less its leading zero byte, accepts the whole input and returns the canonical tree, if and only if the same condition holds; no type assertion of the reader fails then. |
| `BinaryRoundTrip.ReadBackScalar` | whatsmeow-lib/binary/decoder.go:168-223 | Every scalar (strings by token, packed or raw, numbers, booleans, byte slices, identifiers, nil) is read back in canonical form, whatever follows it. |
| `BinaryRoundTrip.ReadBackPacked` | whatsmeow-lib/binary/decoder.go:83-116 | Nibble- and hex-packed strings of odd and even length are read back exactly. |
| `BinaryRoundTrip.ReadBackString` | whatsmeow-lib/binary/encoder.go:135-159 | Whichever of the five string forms the writer picks, the reader returns the string. |
| `BinaryRoundTrip.ReadBackJID` | whatsmeow-lib/binary/encoder.go:161-188 | All four identifier forms are read back as the canonical identifier, through the reader that the form selects. |
| `BinaryRoundTrip.ZeroTagFails` | whatsmeow-lib/binary/encoder.go:82-86 | An element tagged "0" is never read back: its two bytes are an empty list header. |
| `BinaryRoundTrip.TooManyAttrs` | whatsmeow-lib/binary/encoder.go:211-221 | A list size beyond 16 bits wraps in its header, and the reader then cannot come back with all the attributes. |
| `BinaryText.DecimalDenotes` | whatsmeow-lib/binary/encoder.go:109-120 | The text of a number is a numeral (no leading zero, a minus sign exactly for negative numbers) that denotes that number. |
| `BinaryText.AtoiDecimal` | whatsmeow-lib/binary/encoder.go:109-120 | Reading the text as a 64-bit integer gives the number back, and fails exactly on the numbers outside the range. |
| `BinaryText.NumbersPack` | whatsmeow-lib/binary/encoder.go:141-147 | The text of every number that a Go integer type holds is packed as nibbles. |
| `BinaryText.NumberReadBack` | whatsmeow-lib/binary/encoder.go:109-120 | A number is read back, as an attribute or as content, as a string that denotes it. |
| `BinaryText.BooleanReadBack` | whatsmeow-lib/binary/encoder.go:121-122 | A boolean is read back as "true" or "false". |
| `BinaryText.AttributesReadBack` | whatsmeow-lib/binary/encoder.go:190-199 | Exactly the attributes that are neither nil nor "" come back. |
| `BinaryText.LengthForms` | whatsmeow-lib/binary/encoder.go:64-77 | The bytes of length prefixes and list headers on both sides of every boundary. |
| `BinaryText.PackedForms` | whatsmeow-lib/binary/encoder.go:223-255 | Packed text byte for byte: even and odd nibbles, and hexadecimal. |
| `BinaryShortest.ShortestIff` | whatsmeow-lib/binary/encoder.go:135-159 | No form of a string that the reader takes is shorter than the one written, if and only if the string is not one that the reader would unpack and the writer does not pack (more than 127 characters, or a zero byte). |
| `BinaryShortest.FormsOf` | whatsmeow-lib/binary/decoder.go:168-223 | Whatever the reader takes for a string is a token, a packed form of that length, or at least as long as the raw form. |
| `BinaryShortest.PackedSpelling` | whatsmeow-lib/binary/decoder.go:83-116 | Every string of 2 to 254 unpackable characters has a packed form that the reader takes. |
| `BinaryNode.CanonicalJIDIdentity` | whatsmeow-lib/binary/decoder.go:225-304 | Exactly which identifiers survive the wire unchanged, server by server: no agent, a device that fits what the form of that server carries, an integrator only at the interop server. |
| `BinaryEncoder.CountIsOrderFree` | whatsmeow-lib/binary/encoder.go:190-209 | The number of attributes announced equals the number written, in whatever order the map is ranged over. |
| `BinaryEncoder.AnOrder` | whatsmeow-lib/binary/encoder.go:190-199 | Every tree has a visiting order, so quantifying over orders is not empty. |
| `BinaryEncoder.Encoder.WriteNode` | whatsmeow-lib/binary/encoder.go:81-99 | The buffer grows by the encoding of the node in one of its visiting orders, and keeps what it held. |
| `BinaryEncoder.Encoder.Write` | whatsmeow-lib/binary/encoder.go:101-133 | The same for any attribute value or content. |
| `BinaryEncoder.Encoder.WriteAttributes` | whatsmeow-lib/binary/encoder.go:190-199 | The loop over the map writes each attribute that is neither nil nor "" once. |
| `BinaryEncoder.Encoder.WriteString` | whatsmeow-lib/binary/encoder.go:135-149 | The loop-free choice of string form appends the specified encoding. |
| `BinaryEncoder.Encoder.WritePackedBytes` | whatsmeow-lib/binary/encoder.go:223-250 | The packing loop appends tag, rounded length with odd flag, and the packed pairs. |
| `BinaryEncoder.Encoder.WriteJID` | whatsmeow-lib/binary/encoder.go:161-188 | Appends the form that server and device call for. |
| `BinaryEncoder.Encoder.PushIntN` | whatsmeow-lib/binary/encoder.go:32-42 | The shifting loop appends the big-endian numeral. |
| `BinaryEncoder.Encoder.WriteByteLength` | whatsmeow-lib/binary/encoder.go:64-77 | Appends the 8-, 20- or 32-bit length form. |
| `BinaryEncoder.Encoder.WriteListStart` | whatsmeow-lib/binary/encoder.go:211-221 | Appends the empty, 8-bit or 16-bit list header, the last one wrapping. |
| `BinaryEncoder.Marshal` | whatsmeow-lib/binary/node.go:123-127 | The output is the zero byte and the encoding of the node in one of its visiting orders. |
| `BinaryDecoder.Decoder.Read` | whatsmeow-lib/binary/decoder.go:168-223 | On any bytes the index never passes the end, a success reads exactly what the grammar says from the bytes remaining, and a failure is the same failure. |
| `BinaryFormat.ParseValue` | whatsmeow-lib/binary/decoder.go:168-223 | Every successful read of a value leaves strictly fewer bytes; the mutual recursion terminates on bytes remaining. |
| `BinaryFormat.ParseNode` | whatsmeow-lib/binary/decoder.go:352-384 | Every successful read of a node leaves strictly fewer bytes. |
| `BinaryFormat.ParseAttrs` | whatsmeow-lib/binary/decoder.go:306-330 | Reading attributes never adds bytes to the rest. |
| `BinaryDecoder.Decoder.ReadNode` | whatsmeow-lib/binary/decoder.go:352-384 | The index-moving reader agrees with the grammar on every input, errors included. |
| `BinaryDecoder.Decoder.ReadList` | whatsmeow-lib/binary/decoder.go:332-350 | The list loop agrees with the grammar. |
| `BinaryDecoder.Decoder.ReadAttributes` | whatsmeow-lib/binary/decoder.go:306-330 | The attribute loop agrees with the grammar; a repeated key overwrites. |
| `BinaryDecoder.Decoder.ReadPacked8` | whatsmeow-lib/binary/decoder.go:83-116 | The unpacking loop agrees with the grammar, including the slice out of range on an odd flag without bytes. |
| `BinaryDecoder.Decoder.ReadIntN` | whatsmeow-lib/binary/decoder.go:40-59 | The shift-and-or loop reads the big-endian numeral. |
| `BinaryDecoder.Decoder.ReadADJID` | whatsmeow-lib/binary/decoder.go:290-304 | Reads agent, device and user, and picks the server by the agent. |
| `BinaryDecoder.Unmarshal` | whatsmeow-lib/binary/node.go:130-139 | Accepts exactly the inputs that are one node with nothing after it, and reports how many bytes are left over otherwise. |
| `BinaryPrefix.NodeExtends` | whatsmeow-lib/binary/decoder.go:352-384 | What a node was read from, it is read from whatever follows, to the same rest; and no failure but the end of the input is mended by more input. |
| `BinaryPrefix.ValueExtends` | whatsmeow-lib/binary/decoder.go:168-223 | The same of every value, in every form. |
| `BinaryPrefix.CutIsEOF` | whatsmeow-lib/binary/decoder.go:352-384 | An encoding cut short anywhere is the end of the input for the reader, never another node and never another error. |
| `BinaryPrefix.PrefixFree` | whatsmeow-lib/binary/node.go:130-139 | No accepted input is the beginning of another. |
| `BinaryRefusals.NodeNeedsList` | whatsmeow-lib/binary/decoder.go:155-166 | A node that does not begin with the tag of a list is refused for that. |
| `BinaryRefusals.EmptyListIsNoNode` | whatsmeow-lib/binary/decoder.go:352-374 | A list of nothing is no node, whatever string follows. |
| `BinaryRefusals.NamelessIsNoNode` | whatsmeow-lib/binary/decoder.go:352-374 | Nor is an element named "". |
| `BinaryRefusals.NameIsNoIdentifier` | whatsmeow-lib/binary/decoder.go:352-374 | An identifier in place of the name fails an unchecked assertion. |
| `BinaryRefusals.KeyIsAString` | whatsmeow-lib/binary/decoder.go:306-330 | Neither nil nor an identifier is an attribute key. |
| `BinaryRefusals.NoToken` | whatsmeow-lib/binary/decoder.go:168-223 | Bytes between the tokens and the forms are refused. |
| `BinaryRefusals.NoDoubleToken` | whatsmeow-lib/binary/decoder.go:168-223 | So is a double-byte token outside its dictionary. |
| `BinaryRefusals.BadNibble` | whatsmeow-lib/binary/decoder.go:118-142 | The nibbles 12, 13 and 14 are refused. |
| `BinaryRefusals.OddEmptyPanics` | whatsmeow-lib/binary/decoder.go:83-116 | An empty packed string with the odd flag makes the reader slice out of range. |
| `BinaryRefusals.DomainDecides` | whatsmeow-lib/binary/decoder.go:290-304 | The domain byte of the full form decides the server; any other byte is kept as an agent, without a server. |
| `BinaryRefusals.OwnServerOnly` | whatsmeow-lib/binary/decoder.go:241-288 | The interop and messenger forms are refused with any other server. |
| `BinaryRefusals.PairNeedsServer` | whatsmeow-lib/binary/decoder.go:225-239 | A pair without a server is refused. |
| `BinaryLookup.GetOptionalChildByTag` | whatsmeow-lib/binary/node.go:98-114 | The nested loops return the node at the end of the path of first matches, or the last node reached and false. |
| `BinaryLookup.LookupWalks` | whatsmeow-lib/binary/node.go:96-114 | A lookup walks down the first child with each tag; it succeeds at the end of the tags, and otherwise returns the node that has no child with the next one. |
| `BinaryLookup.LookupPath` | whatsmeow-lib/binary/node.go:98-114 | Looking up a path is looking up its two parts one after the other, failures included. |
| `BinaryLookup.LookupSurvives` | whatsmeow-lib/binary/node.go:98-114 | A lookup on a tree that was read gives the canonical form of the lookup on the tree that was written. |
| `BinaryLookup.CanonicalTwice` | whatsmeow-lib/binary/decoder.go:306-330 | A tree that was read survives a second trip unchanged if and only if no written attribute at any depth is an empty byte slice or an empty list. |
| `BinaryLookup.EmptyBytesVanish` | whatsmeow-lib/binary/encoder.go:190-199 | An empty byte slice as an attribute comes back as "" and is gone after the second trip. |
| `BinaryLookup.CanonicalJIDTwice` | whatsmeow-lib/binary/encoder.go:161-188 | An identifier that was read survives every further trip. |
| `JidText.ParsePrinted` | whatsmeow-lib/types/jid.go:158-226 | `ParseJID(jid.String())` gives the JID back if and only if its user has no "@" and no ".", its server no "@", its integrator is 0, and its user has no ":" unless it has an agent; over all agents and devices. |
| `JidText.ColonIsTakenForDevice` | whatsmeow-lib/types/jid.go:187-198 | A ":" in a user without agent: "a:b@s" is refused and "a:1@s" is read as device 1 of user "a". |
| `JidText.ParseADString` | whatsmeow-lib/types/jid.go:210-212 | The same for `ADString`, where ":" in the user does no harm. |
| `JidText.ReprintedIff` | whatsmeow-lib/types/jid.go:214-226 | Text that parses prints to something that parses to the same JID if and only if no ":" is left in a user without agent. |
| `JidText.ReprintedCanFail` | whatsmeow-lib/types/jid.go:158-226 | Text that parses, and whose JID prints to text that does not. |
| `JidText.PrintedApart` | whatsmeow-lib/types/jid.go:216-226 | Two printable JIDs with the same text are the same. |
| `JidText.ParsedIsParseable` | whatsmeow-lib/types/jid.go:158-200 | Whatever is parsed, the result has no "@", no "." in the user and no integrator. |
| `JidText.ParseADName` | whatsmeow-lib/types/jid.go:164-186 | Agent and device come back through splitting, number parsing and truncation; a dot in the user is an error. |
| `JidText.ParseNameIff` | whatsmeow-lib/types/jid.go:164-199 | Exactly the names that parse: plain ones, those with a number behind their only colon, and those with one dot and behind it a number, or two numbers with one colon between them. |
| `JidText.ParseForms` | whatsmeow-lib/types/jid.go:164-199 | What each of those forms is parsed to: agent modulo 2^8, device modulo 2^16. |
| `JidText.AtoiForms` | whatsmeow-lib/types/jid.go:174-195 | Agent and device may have leading zeros and a sign of either kind; out of the 64-bit range is an error. |
| `JidText.ParseText` | whatsmeow-lib/types/jid.go:159-163 | Without an at sign the text is a server; what follows a second one is ignored. |
| `JidText.ParseAgentOnly` | whatsmeow-lib/types/jid.go:164-178 | "user.n@server" is agent n modulo 2^8 and device 0. |
| `JidText.ParseAgentAndDevice` | whatsmeow-lib/types/jid.go:164-186 | "user.a:d@server" is agent a modulo 2^8 and device d modulo 2^16. |
| `LtHash.SumUnion` | whatsmeow-lib/appstate/lthash/lthash.go:39-43 | The hash of a union of items is the sum of the hashes, in whatever order items are taken. |
| `LtHash.BalancedBatch` | whatsmeow-lib/appstate/lthash/lthash.go:34-37 | A batch whose removals and additions balance, item for item, takes the sum over the items before to the sum over the items after. |
| `LtHash.PerformPointwiseWithOverflow` | whatsmeow-lib/appstate/lthash/lthash.go:45-58 | The in-place loop over little-endian pairs of bytes is one operation of the group of 64 lanes modulo 2^16. |
| `LtHash.SubtractThenAddInPlace` | whatsmeow-lib/appstate/lthash/lthash.go:34-43 | The whole batch in place is the batch on lanes. |
| `LtHash.LaneBytesInverse` | whatsmeow-lib/appstate/lthash/lthash.go:45-58 | The lanes are recovered from their bytes. |
| `LtHash.BytesAndLanes` | whatsmeow-lib/appstate/lthash/lthash.go:45-58 | The byte form and the lanes determine each other. |
| `AppStateLedger.BalancedIff` | whatsmeow-lib/appstate/decode.go:267-308 | For any patch and stored index: what the look-back removes from the hash and what it adds balance with what is stored before and after if and only if no index is both SET and REMOVEd, or REMOVEd twice. |
| `AppStateLedger.SnapshotBalancedIff` | whatsmeow-lib/appstate/decode.go:205-246 | A snapshot balances if and only if its indices are distinct and none is stored yet. |
| `AppStateLedger.LookbackIsLatest` | whatsmeow-lib/appstate/decode.go:271-280 | The look-back finds the latest value of an index, whatever the operation that carried it. |
| `AppStateProofs.PatchKeepsCoherence` | whatsmeow-lib/appstate/decode.go:267-310 | A patch without such a clash that is accepted keeps the hash equal to the group sum of the value MACs in the stored index, overwrites and REMOVEs of missing indices included. |
| `AppStateProofs.SnapshotKeepsCoherence` | whatsmeow-lib/appstate/decode.go:205-246 | So does a snapshot with distinct indices into an empty index. |
| `AppStateProofs.EveryRunIsCoherent` | whatsmeow-lib/appstate/decode.go:249-312 | After every run of resets, snapshots and patches, failures half way included, the hash is the sum over the stored index. |
| `AppStateProofs.HashIsPathIndependent` | whatsmeow-lib/appstate/hash.go:36-62 | Two runs that end with the same stored index end with the same hash. |
| `AppStateProofs.KeepsSumIff` | whatsmeow-lib/appstate/hash.go:36-62 | For patches below 65536 mutations, the sum is kept under every expansion to lanes if and only if the patch has no clash: with a clash some expansion shows the difference. |
| `AppStateProofs.RemovedTwiceMiscounts` | whatsmeow-lib/appstate/decode.go:271-280 | The shortest clash, an index removed twice: the value MAC of the first removal leaves the hash, in which it never was. |
| `AppStateProofs.PrefixCommit` | whatsmeow-lib/appstate/decode.go:243-311 | Decoding stops at the first patch that fails a key, MAC, decryption or parse; the state is exactly what the patches before it made, and an unwritten store is untouched. |
| `AppStateProofs.BuilderAgreesIff` | whatsmeow-lib/appstate/encode.go:312-314 | When no new value MAC is stored already, the builder, which never looks inside the patch, removes the same value MACs as the decoder if and only if the indices are distinct. |
| `AppStateProofs.SetTwiceDisagrees` | whatsmeow-lib/appstate/encode.go:312-314 | An index that a patch sets twice: the decoder removes the first value, the builder does not. |
| `AppStateProofs.AcceptsOwnPatch` | whatsmeow-lib/appstate/encode.go:263-337 | A patch built from a state and store with distinct indices, stamped with the next version and decoded there, passes all four MAC checks and yields exactly its mutations as SETs in order. |
| `AppStateProofs.EncodedMutationDecodes` | whatsmeow-lib/appstate/encode.go:274-310 | One built mutation passes the content and index MACs and decodes to what it was built from. |
| `AppStateIntegrity.AcceptedIff` | whatsmeow-lib/appstate/decode.go:249-312 | With validation a patch is accepted, with these mutations, if and only if its key is known, the hash it leads to carries its snapshot MAC, its values and version carry its patch MAC, and every mutation shows its value and index MAC. |
| `AppStateIntegrity.DecodedIffShown` | whatsmeow-lib/appstate/decode.go:120-175 | With validation a mutation decodes to something if and only if the encrypted value carries its MAC, and the index in the decrypted value carries the index MAC. |
| `AppStateIntegrity.AllShown` | whatsmeow-lib/appstate/decode.go:120-175 | The same for all mutations of a list, in order. |
| `AppStateIntegrity.RefusedUnopened` | whatsmeow-lib/appstate/decode.go:120-142 | Exactly which mutations are refused before decryption: for an unknown key, for a wrong content MAC, and by a slice out of range for a value shorter than its MAC or, behind a right MAC, than its IV. |
| `AppStateIntegrity.WrongPatchMAC` | whatsmeow-lib/appstate/decode.go:295-299 | An accepted patch with any other patch MAC is refused for its patch MAC. |
| `AppStateIntegrity.WrongSnapshotMAC` | whatsmeow-lib/appstate/decode.go:289-294 | With any other snapshot MAC it is refused for that one. |
| `AppStateIntegrity.WrongMACOfSnapshot` | whatsmeow-lib/appstate/decode.go:192-203 | So is an accepted snapshot with another MAC. |
| `AppStateIntegrity.WrongValueMAC` | whatsmeow-lib/appstate/decode.go:135-141 | A mutation that decodes is refused with any other value MAC. |
| `AppStateIntegrity.WrongIndexMAC` | whatsmeow-lib/appstate/decode.go:152-156 | It is refused with any other index MAC. |
| `AppStateIntegrity.UncheckedMACs` | whatsmeow-lib/appstate/decode.go:289-300 | Without validation neither MAC of a patch makes a difference. |
| `AppStateIntegrity.UncheckedMutation` | whatsmeow-lib/appstate/decode.go:135-156 | Nor does either MAC of a mutation make one for whether it decodes. |
| `AppStateIntegrity.SnapshotMACBinds` | whatsmeow-lib/appstate/hash.go:78-80 | Unless the MACs of two texts collide, one snapshot MAC is that of one hash, one version and one collection name. |
| `AppStateIntegrity.PatchMACBinds` | whatsmeow-lib/appstate/hash.go:82-92 | With one snapshot MAC, one patch MAC is that of one version and one list of value MACs. |
| `AppStateIntegrity.ContentMACBinds` | whatsmeow-lib/appstate/hash.go:94-98 | One content MAC is that of one operation, one encrypted value and one key id. |
| `AppStateIntegrity.SameMACsSamePatch` | whatsmeow-lib/appstate/decode.go:249-312 | Unless MACs collide, two patches accepted from any states under any collection names with the same keys and the same two MACs are the same patch, for the same collection, leading to the same hash. |
| `AppStateIntegrity.AllMutationsReturned` | whatsmeow-lib/appstate/decode.go:249-312 | A list that is applied returns the mutations of the snapshot and of every patch, all of them in order, and ends at the version of its last patch. |
| `AppStateProofs.FetchAppState` | whatsmeow-lib/appstate.go:40-90 | The fetch loop, whose state is carried beside the store, returns the stored version after every success, and stores exactly what applying the answers in turn gives. |
| `AppStateProofs.FetchEnds` | whatsmeow-lib/appstate.go:71-82 | Fetching applies the answers in turn, each to what the one before left, while they apply and say that there is more, and no further; it succeeds with the version reached if the answer then looked at applies as the last one, and otherwise leaves what was applied up to its failure. |
| `AppStateProofs.FetchTwo` | whatsmeow-lib/appstate.go:71-82 | Of two answers, the first with more to come, the second is applied to what the first left. |
| `AppStateProcessor.UpdateHash` | whatsmeow-lib/appstate/hash.go:36-62 | One pass collects additions and removals, counts REMOVEs without a value as warnings, and one batch changes the hash in place; the values of SETs must be long enough to slice, those of REMOVEs need not. |
| `AppStateProcessor.Processor.DecodeAll` | whatsmeow-lib/appstate/decode.go:120-175 | The loop decodes all mutations or fails with the first error, and splits the indices into removed and added. |
| `AppStateProcessor.Processor.StoreMACs` | whatsmeow-lib/appstate/decode.go:177-190 | Version and hash are replaced, removed indices deleted, then added ones inserted. |
| `AppStateProcessor.Processor.DecodeSnapshot` | whatsmeow-lib/appstate/decode.go:205-246 | The snapshot is applied to the store, or the store is left alone. |
| `AppStateProcessor.Processor.DecodePatch` | whatsmeow-lib/appstate/decode.go:267-310 | The patch is applied to the store, or the store is left alone; errors, and slices out of range, come in the order of the code. |
| `AppStateProofs.ShortRemove` | whatsmeow-lib/appstate/decode.go:289-300 | For a REMOVE with a value too short to slice, alone in its patch, a wrong snapshot MAC is reported before the value is sliced. |
| `AppStateProcessor.Processor.DecodePatches` | whatsmeow-lib/appstate/decode.go:249-312 | The store ends up as the run over the list says, and the result is that of the run, errors included. |
| `AppStateProcessor.Processor.EncodePatch` | whatsmeow-lib/appstate/encode.go:263-337 | The patch has the specified mutations, hash, version and MACs. |
| `AppStateProcessor.AppStateStore.DeleteAppStateVersion` | whatsmeow-lib/store/sqlstore/store.go:508-511 | Deleting the version also empties the index. |
| `AppStateSend.SendConverges` | whatsmeow-lib/appstate.go:395-485 | A sender at any point of the shared log, with others possibly sending while it retries, succeeds if and only if it was up to date or nothing came in between; on success the log has grown by its patch built where the log stood, and in every case the log stays sound and the sender holds exactly what its log says. |
| `AppStateSend.UpToDateSucceeds` | whatsmeow-lib/appstate.go:411-484 | An up-to-date sender succeeds and holds what the longer log says. |
| `AppStateSend.CatchesUp` | whatsmeow-lib/appstate.go:454-470 | A replica that is behind reaches the others by decoding the patches it lacks. |
| `AppStateSend.SendAppState` | whatsmeow-lib/appstate.go:395-485 | The two-attempt procedure has the specified effect on server log, store and result. |
| `ReportingTree.ExtractIsProjection` | whatsmeow-lib/reportingtoken.go:94-176 | On the encoding of any well-formed message that fits the configuration, whatever lies behind it in memory, the extractor returns the encoding of its projection: configured fields kept, nested messages projected and measured anew, empty ones dropped, sorted by number; it stays in the message and its offset moves forward. |
| `ReportingTree.ProjectIsFiltered` | whatsmeow-lib/reportingtoken.go:94-176 | The projection has exactly the configured fields, as a multiset at every level. |
| `ReportingFilter.FilteredIsConfigured` | whatsmeow-lib/reportingtoken.go:142-160 | After filtering, at every depth: every field has an entry, inside a message whose entry has subfields every field has one among them, and nothing of a message that is only flagged as one is left. |
| `ReportingFilter.ProjectIsConfigured` | whatsmeow-lib/reportingtoken.go:94-176 | The same of the projection, hence of the message that the extracted bytes encode. |
| `ReportingFilter.KeptWhole` | whatsmeow-lib/reportingtoken.go:158-160 | A field whose entry says nothing of its inside, or whose value is no message, is kept whole. |
| `ReportingFilter.KeptInside` | whatsmeow-lib/reportingtoken.go:142-157 | A message whose entry has subfields is kept with what these keep of it, and dropped if that is nothing. |
| `ReportingFilter.FlaggedIsDropped` | whatsmeow-lib/reportingtoken.go:142-145 | A message whose entry is only flagged as one is dropped. |
| `ReportingFilter.InsideIsFiltered` | whatsmeow-lib/reportingtoken.go:142-157 | An entry with one subfield and no flag, byte for byte: of two fields inside, the configured one is extracted. |
| `ReportingFilter.ScanBefore` | whatsmeow-lib/reportingtoken.go:102-168 | Scanning a message and whatever follows it is the projection of the message and then the scan of the rest. |
| `ReportingFilter.UnknownWireTypeDropsAll` | whatsmeow-lib/reportingtoken.go:124-127 | A field of an unknown wire type behind any message makes the whole result empty. |
| `ReportingFilter.TruncatedTagStops` | whatsmeow-lib/reportingtoken.go:103-106 | A tag that cannot be read behind any message ends the loop, and the message before it is extracted. |
| `ReportingFilter.CutValue` | whatsmeow-lib/reportingtoken.go:128-163 | A value cut off in its varint counts as empty: a configured field leaves its bare tag, a message to look into nothing, and what is left of it is taken for the next tag. |
| `ReportingTree.ProjectTwice` | whatsmeow-lib/reportingtoken.go:94-176 | Projecting twice keeps every field, whatever the two sorts do with equal numbers. |
| `ReportingTree.ExtractTwice` | whatsmeow-lib/reportingtoken.go:94-176 | On bytes: the extracted content is itself a well-formed message, no longer than the input, and extracting from it keeps every field. |
| `ReportingTree.ExtractInOrder` | whatsmeow-lib/reportingtoken.go:168-175 | When field numbers strictly increase at every level, the result is the plain filter whatever the sort does, and extracting again returns the same bytes. |
| `ReportingTree.OnlyFilteredCounts` | whatsmeow-lib/reportingtoken.go:94-176 | Two messages have the same projected fields if and only if their configured fields are the same, however ordered and whatever else they hold. |
| `ReportingTree.SameContent` | whatsmeow-lib/reportingtoken.go:94-176 | When fields are reordered as well, the extracted bytes are equal if the numbers that are kept are distinct at every level. |
| `ReportingTree.UnconfiguredIsInvisible` | whatsmeow-lib/reportingtoken.go:112-129 | Adding or removing an unconfigured field anywhere at the top level leaves the extracted bytes as they are, whatever numbers repeat. |
| `ReportingTree.SameFilterSameBytes` | whatsmeow-lib/reportingtoken.go:94-176 | Messages that differ only in unconfigured fields, at any level and with any kept numbers repeated, are extracted to the same bytes. |
| `ReportingTree.ProjectOfFiltered` | whatsmeow-lib/reportingtoken.go:94-176 | Dropping the unconfigured fields first, at every level, does not change the projection. |
| `ReportingToken.ReadBackVarint` | whatsmeow-lib/reportingtoken.go:147-151 | Every 64-bit value written as a varint is read back, whatever follows. |
| `ReportingToken.ExtractReportingTokenContent` | whatsmeow-lib/reportingtoken.go:94-176 | On any bytes, with any bytes behind them that a slice can reach, the offset loop returns what the recursive definition says: malformed tags and unknown wire types end it, truncated fields take in what the slice reaches. Inputs whose value or length is a varint of more than 64 bits, or a length of 2^62 or more, are one outcome that says nothing further. |
| `ReportingToken.TruncatedReachesBeyond` | whatsmeow-lib/reportingtoken.go:161-163 | A truncated field that is kept takes in bytes from behind the message, and fails only where its backing array ends. |
| `ReportingToken.PieceFound` | whatsmeow-lib/reportingtoken.go:138-160 | The piece of a configured field: its own bytes, or a nested message filtered and re-measured, or nothing. |
| `ReportingToken.GetConfigForField` | whatsmeow-lib/reportingtoken.go:76-83 | The first entry for the number, if any. |
| `FrameReassembly.AsWrittenReassemblesIff` | whatsmeow-lib/socket/framesocket.go:164-203 | As written (lines 175-176 in their order): a stream of frames, cut into any chunks, is delivered exactly, in order and with nothing held back, if and only if no chunk boundary cuts a payload or separates a length prefix from a payload that is not empty. |
| `FrameReassembly.OneCut` | whatsmeow-lib/socket/framesocket.go:172-196 | The code as written on one frame cut in two anywhere: with fewer than three bytes missing it slices out of range; otherwise it delivers a frame with three zero bytes in it and takes the last three bytes for the next length. |
| `FrameReassembly.SplitLengthCrashes` | whatsmeow-lib/socket/framesocket.go:172-196 | The shortest case: the length of a one-byte frame in one chunk and its byte in the next. |
| `FrameReassembly.ReorderedReassembles` | whatsmeow-lib/socket/framesocket.go:164-203 | With lines 175 and 176 swapped: the same for every cutting, splits inside the length included. |
| `FrameReassembly.FeedAccounts` | whatsmeow-lib/socket/framesocket.go:164-203 | With the lines swapped, after any chunks at all, the frames delivered and the bytes pending are exactly the bytes received. |
| `FrameReassembly.UniqueFrames` | whatsmeow-lib/socket/framesocket.go:164-203 | A byte stream splits into frames and an unfinished rest in at most one way. |
| `FrameReassembly.SentFramesArrive` | whatsmeow-lib/socket/framesocket.go:123-153 | What `SendFrame` writes, one chunk a frame, is delivered exactly, by the receiver as written and with the lines swapped, for all payloads under 2^24 bytes. |
| `FrameSocket.PrefixInverse` | whatsmeow-lib/socket/framesocket.go:173-173 | Three length bytes are written back as they were read. |
| `FrameSocket.PrefixForm` | whatsmeow-lib/socket/framesocket.go:144-147 | The length is written in three bytes, the high one first. |
| `FrameSocket.PrefixOf` | whatsmeow-lib/socket/framesocket.go:144-147 | Every length under 2^24 is read back from its three bytes, whatever follows. |
| `FrameSocket.Socket.SendFrame` | whatsmeow-lib/socket/framesocket.go:123-153 | Writes the header once, then length and payload; refuses payloads of 2^24 bytes and closed sockets without writing. |
| `FrameSocket.BuildFrame` | whatsmeow-lib/socket/framesocket.go:132-150 | The buffer filled in place is header, length and payload. |
| `FrameSocket.Socket.ProcessData` | whatsmeow-lib/socket/framesocket.go:164-203 | The loop over `incoming`, `incomingLength`, `receivedLength` and `partialHeader` ends in the specified state, or fails where a slice is out of range. |
| `FrameSocket.Socket.FrameComplete` | whatsmeow-lib/socket/framesocket.go:155-162 | Delivers the frame and clears all four fields. |
| `Noise.LockStep` | whatsmeow-lib/socket/noisehandshake.go:39-130 | Two handshake objects in equal states stay equal through any script of authenticating, mixing and messages in both directions, and every message is recovered. |
| `Noise.AcceptsIff` | whatsmeow-lib/socket/noisehandshake.go:64-76 | With an ideal AEAD a message is accepted if and only if key, counter and transcript hash agree, and then they agree afterwards. |
| `NoiseTranscript.AuthenticationBinds` | whatsmeow-lib/socket/noisehandshake.go:55-76 | Unless hashes collide, a message sealed after authenticating a opens for a peer that authenticated b from the same state if and only if a is b. |
| `NoiseTranscript.HashIsTranscript` | whatsmeow-lib/socket/noisehandshake.go:55-76 | Over every run the hash is the chain of hashes over what was authenticated and every ciphertext made or opened, in order. |
| `NoiseTranscript.ChainBinds` | whatsmeow-lib/socket/noisehandshake.go:55-57 | Unless hashes collide, two such chains end alike if and only if they are over the same data. |
| `NoiseTranscript.RunIsMixed` | whatsmeow-lib/socket/noisehandshake.go:59-117 | Over every run salt and key are those of the secrets mixed in, in order, and the counter is the number of messages since the last of them. |
| `NoiseTranscript.KeyBinds` | whatsmeow-lib/socket/noisehandshake.go:105-117 | Unless derivations collide, two sequences of secrets give one key if and only if they are the same. |
| `NoiseTranscript.MessageOpensIff` | whatsmeow-lib/socket/noisehandshake.go:39-117 | After any two runs from one state, the next message of the one opens for the other if and only if the runs agree on everything authenticated, on everything mixed in, and on the number of messages since then modulo 2^32. |
| `NoiseTranscript.HandshakeBinds` | whatsmeow-lib/handshake.go:30-90 | A client accepts an honest server only if the server started with the same header and saw the client's ephemeral key: a replaced one is noticed. |
| `NoiseTranscript.IVIsNonce` | whatsmeow-lib/socket/noisesocket.go:73-77 | The IV is the nonce that section 12.3 of the Noise Protocol Framework (revision 34) gives for AESGCM. |
| `NoiseTranscript.StartImplements` | whatsmeow-lib/socket/noisehandshake.go:39-53 | Starting with the pattern is InitializeSymmetric of section 5.2 with the protocol name, and MixHash of the prologue. |
| `NoiseTranscript.EncryptImplements` | whatsmeow-lib/socket/noisehandshake.go:64-68 | Encrypting after a mix is EncryptAndHash. |
| `NoiseTranscript.DecryptImplements` | whatsmeow-lib/socket/noisehandshake.go:70-76 | Decrypting after a mix is DecryptAndHash for a message that opens; for one that does not, and only for that, the states part. |
| `NoiseTranscript.RunImplements` | whatsmeow-lib/socket/noisehandshake.go:39-130 | Over every run of such acts the state is that of the framework's symmetric state. |
| `NoiseTranscript.ClientIsInitiator` | whatsmeow-lib/handshake.go:30-129 | The client is an initiator of the XX pattern of section 7.5, with the tokens e; e, ee, s, es; s, se, that also checks the certificate: the same answers accepted, the same last message, the same transport keys. |
| `NoiseTranscript.FirstPayloadIsNotHashed` | whatsmeow-lib/handshake.go:31-43 | The framework would hash the empty payload of the first message; its state then differs unless the hash is a fixed point. |
| `Noise.IVRepeatsIff` | whatsmeow-lib/socket/noisehandshake.go:59-76 | Between mixes two uses have the same IV if and only if the number of uses from one to the other is a multiple of 2^32. |
| `Noise.IVsAreFresh` | whatsmeow-lib/socket/noisehandshake.go:59-76 | So with fewer than 2^32 messages between mixes no IV is used twice with one key. |
| `Noise.HandshakeAgrees` | whatsmeow-lib/handshake.go:30-129 | Against an honest responder of the XX pattern whose certificate is accepted, the client succeeds, the server recovers its key and payload, and each side writes with the key the other reads with. |
| `Noise.InOrderFramesOpen` | whatsmeow-lib/socket/noisesocket.go:89-118 | While every frame arrives and nothing else does, both counters advance together and every frame is opened. |
| `Noise.FrameOpensIff` | whatsmeow-lib/socket/noisesocket.go:89-118 | With an ideal AEAD a frame that arrives is opened if and only if as many frames were lost before it as strangers arrived, modulo 2^32. |
| `Noise.OneLostFrame` | whatsmeow-lib/socket/noisesocket.go:89-118 | One frame lost, and the next does not open. |
| `Noise.IVsDiffer` | whatsmeow-lib/socket/noisesocket.go:73-77 | Different 32-bit counters give different IVs. |
| `Noise.DoHandshake` | whatsmeow-lib/handshake.go:30-129 | The client procedure, step by step on a handshake object, has the specified result and errors. |
| `Noise.NoiseHandshake.Encrypt` | whatsmeow-lib/socket/noisehandshake.go:64-68 | Ciphertext and new state as specified: the counter is used up and the ciphertext authenticated. |
| `Noise.NoiseHandshake.Decrypt` | whatsmeow-lib/socket/noisehandshake.go:70-76 | The counter is used up even on failure; the hash changes only on success. |
| `Noise.NoiseHandshake.MixIntoKey` | whatsmeow-lib/socket/noisehandshake.go:105-117 | Counter back to zero, new salt and key, hash kept. |
| `Noise.NoiseHandshake.Start` | whatsmeow-lib/socket/noisehandshake.go:39-53 | A 32-byte pattern is the hash itself, any other is hashed; then the header is authenticated. |
| `Noise.NoiseSocket.SendFrame` | whatsmeow-lib/socket/noisesocket.go:89-108 | A context that is over sends nothing and keeps the counter; otherwise the counter is used up, whatever becomes of the frame. |
| `Noise.NoiseSocket.ReceiveEncryptedFrame` | whatsmeow-lib/socket/noisesocket.go:110-118 | The counter advances whether or not the frame opens. |
| `ResponseWaiters.KeepsStep` | whatsmeow-lib/request.go:43-97 | Every step keeps the invariant of map, channels and claims, and the only step that can panic is the send of a claim whose request was cancelled between claim and send. |
| `ResponseWaiters.OneNodeEach` | whatsmeow-lib/request.go:43-97 | In every interleaving a waiter is sent at most one node, which has its id or was given to a clear (a disconnect node, when clears are given only those). |
| `ResponseWaiters.MapIsOpenAndEmpty` | whatsmeow-lib/request.go:43-62 | In every interleaving every channel in the map is open, empty and unused, under its own id only. |
| `ResponseWaiters.ClearNeverCloses` | whatsmeow-lib/request.go:46-51 | The close branch of the clear is never taken. |
| `ResponseWaiters.SendNeverBlocks` | whatsmeow-lib/request.go:90-95 | In every interleaving the send of a claim neither waits nor panics on a channel that was not cancelled, and panics on one that was. |
| `ResponseWaiters.ResponseIsDelivered` | whatsmeow-lib/request.go:71-97 | A response claimed and sent is what its waiter holds until it is taken, and no other claim is made on that channel. |
| `ResponseWaiters.ClearServesAll` | whatsmeow-lib/request.go:43-54 | A clear sends the node to every registered request, exactly once, and empties the map. |
| `ResponseWaiters.CancelIsItsOwn` | whatsmeow-lib/request.go:64-69 | A cancel never takes another request out of the map. |
| `ResponseWaiters.StillWaiting` | whatsmeow-lib/request.go:212-238 | An id is never registered while it is still in the map, also by a retry after a disconnect. |
| `ResponseWaiters.CancelledSendPanics` | whatsmeow-lib/request.go:64-97 | The run that shows the window: wait, claim, cancel, send. |
| `ResponseWaiters.Client.ClearResponseWaiters` | whatsmeow-lib/request.go:43-54 | The loop over the map, in any order, has the specified effect and keeps the invariant. |
| `ResponseWaiters.Client.WaitResponse` | whatsmeow-lib/request.go:56-62 | A fresh channel is registered under the id. |
| `ResponseWaiters.Client.CancelResponse` | whatsmeow-lib/request.go:64-69 | The channel is closed and its id taken out of the map. |
| `ResponseWaiters.Client.ReceiveResponse` | whatsmeow-lib/request.go:71-85 | Only an iq or ack with the id of a registered request takes that request out of the map. |
| `ResponseWaiters.ReceiveClaimsIff` | whatsmeow-lib/request.go:71-88 | An iq or an ack with the id of a registered request claims it and takes the id out; anything else changes nothing. |
| `ResponseWaiters.AckIsDelivered` | whatsmeow-lib/request.go:71-97 | A request answered by an ack, from its registration to its owner. |
| `ResponseWaiters.Disconnects` | whatsmeow-lib/request.go:25-27 | The end of the stream and a stream error are disconnects, and no answer to a request is one. |
| `ResponseWaiters.Client.SendResponse` | whatsmeow-lib/request.go:90-96 | The node is put into the claimed channel. |
| `EventBuffer.EveryRunIsAlive` | whatsmeow-lib/message.go:487-537 | In every run of deliveries, failures, crashes and expiries, the history of each hash is one commit, calls of the handler with the committed plaintext, successful or not, and nothing after a clear while the hash is kept. |
| `EventBuffer.CommitsAtMostOnce` | whatsmeow-lib/message.go:520-530 | The ratchet decryption of a hash is committed once if its row is there and never otherwise. |
| `EventBuffer.SamePlaintext` | whatsmeow-lib/message.go:503-518 | Every call of the handler sees the plaintext of the commit, which stays in the buffer until the clear, and a clear is the last event. |
| `EventBuffer.RatchetIsReplay` | whatsmeow-lib/message.go:520-530 | In every run the ratchet is where the committed decryptions, and no others, took it. |
| `EventBuffer.ClearedOnlyIfAccepted` | whatsmeow-lib/message.go:413-447 | In every run a clear directly follows a call of the handler that accepted the committed plaintext, unless one of the deliveries of that ciphertext takes a branch that clears this plaintext unseen. |
| `EventBuffer.ClearsIff` | whatsmeow-lib/message.go:413-447 | A delivery clears a buffered plaintext if and only if nothing interrupts it and either the handler accepts the plaintext or the plaintext takes a branch that clears it unseen. |
| `EventBuffer.ClearsUnseenIff` | whatsmeow-lib/message.go:415-434 | It clears without any call of the handler if and only if nothing interrupts it, the plaintext unpads, there is no event to dispatch, and it is not a version 2 plaintext that fails to parse. |
| `EventBuffer.FailedParseClears` | whatsmeow-lib/message.go:415-434 | One plaintext that nothing parses: as version 3 and as an unknown version it is cleared with no handler called, as version 2 it is kept. |
| `EventBuffer.ClearedIsDone` | whatsmeow-lib/message.go:503-511 | Once cleared, a redelivery changes nothing and calls no handler. |
| `EventBuffer.TroubleFreeRedelivery` | whatsmeow-lib/message.go:430-447 | A delivery without trouble of a buffered plaintext calls the handler with it, clears it and leaves the ratchet alone. |
| `EventBuffer.CrashLosesOnlyNil` | whatsmeow-lib/message.go:503-511 | After a crash right behind the commit the redelivery reaches the handler if and only if the plaintext was not nil. |
| `EventBuffer.NilIsLost` | whatsmeow-lib/message.go:503-511 | A run that shows it: a nil plaintext, a crash behind its commit, and a redelivery that calls no handler. |
| `EventBuffer.StanzaIsRun` | whatsmeow-lib/message.go:330-459 | A stanza is a run of the deliveries of its first children: all of them, or up to the first behind which it does not go on. |
| `EventBuffer.GoesOnIff` | whatsmeow-lib/message.go:386-447 | Exactly when a stanza goes on behind a child: the event was processed already or its counter is old; or its plaintext unpads and either is a version 2 plaintext that does not parse or meets no failing handler and no crash. |
| `EventBuffer.BothVersionsAreHandled` | whatsmeow-lib/message.go:413-447 | A plaintext with an event to dispatch is committed, handled and cleared as version 2 and as version 3. |
| `EventBuffer.Client.BufferedDecrypt` | whatsmeow-lib/message.go:487-537 | With the buffer on, as specified; with it off, every delivery decrypts and nothing is buffered. |
| `EventBuffer.Client.DoDecryptionTxn` | whatsmeow-lib/message.go:520-530 | Ratchet and row change together or, on any failure, not at all. |
| `EventBuffer.Client.FinishMessage` | whatsmeow-lib/message.go:410-447 | Unpad, parse, handle and clear as specified, with every early exit. |
| `EventBuffer.Client.DecryptMessages` | whatsmeow-lib/message.go:330-459 | The loop over the children stops where one of them stops it. |
| `Padding.UnpadPad` | whatsmeow-lib/message.go:623-643 | Unpadding undoes padding for every plaintext and every random byte, in every version that is padded. |
| `Padding.UnpadIff` | whatsmeow-lib/message.go:617-633 | Exactly what is accepted: a last byte n preceded by n - 1 copies of it is cut off, and a last byte 0 is kept. |
| `Padding.PadLength` | whatsmeow-lib/message.go:635-643 | The low four bits of the random byte are the number of pad bytes, fifteen standing for zero. |
| `RecentMessages.HeldIff` | whatsmeow-lib/retry.go:50-63 | After any history, repeated keys included, a key last added at step t is held, with its latest message, if and only if its id is empty or no add of it has left the ring since. |
| `RecentMessages.FirstSlotPutsOut` | whatsmeow-lib/retry.go:53-55 | A key added again 255 adds later is put out by one further add, with its first slot. |
| `RecentMessages.AtMostSize` | whatsmeow-lib/retry.go:50-63 | At most 256 messages with an id are held. |
| `RecentMessages.HeldIsInRing` | whatsmeow-lib/retry.go:50-63 | Every held key with an id is in the ring. |
| `RecentMessages.EmptyIdsStay` | whatsmeow-lib/retry.go:53-55 | Keys without id are never put out: the map holds every one ever added, so it has no bound of its own. |
| `RecentMessages.RingHolds` | whatsmeow-lib/retry.go:57-61 | Slot i modulo 256 holds the key of add i until 256 more were made. |
| `RecentMessages.Cache.AddRecentMessage` | whatsmeow-lib/retry.go:50-63 | Ring, map and pointer change as specified. |
| `RecentMessages.Cache.GetRecentMessage` | whatsmeow-lib/retry.go:65-70 | Returns the latest message of a key that stays, and the empty one otherwise. |
| `SessionCache.CacheIsInvisible` | whatsmeow-lib/store/signal.go:85-120 | For every trace of loads, stores and flushes (failed ones too) on any addresses, after reading ahead any addresses, every load returns what it would have returned without the cache. |
| `SessionCache.FlushedStoreIsPlain` | whatsmeow-lib/store/sessioncache.go:106-125 | A flush that succeeds leaves the backing store as it would be without the cache. |
| `SessionCache.FlushTwice` | whatsmeow-lib/store/sessioncache.go:106-125 | After a flush that succeeds there is nothing left to write: another cannot fail and changes nothing. |
| `SessionCache.CleanFlush` | whatsmeow-lib/store/sessioncache.go:106-125 | A flush with nothing dirty cannot fail, and forgets what was read ahead. |
| `SessionCache.ContainsIff` | whatsmeow-lib/store/signal.go:122-129 | After any trace `ContainsSession` answers as without the cache if and only if the address is not one whose first session still waits to be flushed. |
| `SessionCache.ContainsBeforeFlush` | whatsmeow-lib/store/signal.go:122-129 | While nothing is flushed, it misses exactly the addresses that had no session and were given one. |
| `SessionCache.RunRefines` | whatsmeow-lib/store/sessioncache.go:47-125 | Through every trace the plain store equals the backing store with the dirty entries written. |
| `SessionCache.NothingBeforeFlush` | whatsmeow-lib/store/signal.go:109-113 | With a cache in the context no store reaches the backing store before a flush. |
| `SessionCache.NestedPrefetchIff` | whatsmeow-lib/store/sessioncache.go:72-104 | Reading ahead under a context that already carries a cache gives the plain result for an address if and only if nothing unflushed hides there. |
| `SessionCache.NestedPrefetchLoses` | whatsmeow-lib/store/sessioncache.go:72-104 | An input where a second reading ahead loses what was stored. |
| `SessionCache.Device.WithCachedSessions` | whatsmeow-lib/store/sessioncache.go:72-104 | The loop over the rows caches every session that parses and says which addresses have one. |
| `SessionCache.Device.PutCachedSessions` | whatsmeow-lib/store/sessioncache.go:106-125 | The loop collects the dirty entries; they are written in one transaction and only then is the cache emptied. |
| `SessionCache.Device.LoadSession` | whatsmeow-lib/store/signal.go:85-103 | Cached record, else stored record, else a new one; an error when the bytes do not parse. |
| `SessionCache.Device.ContainsSession` | whatsmeow-lib/store/signal.go:122-129 | Asks the backing store, past the cache. |
| `SessionCache.Device.StoreSession` | whatsmeow-lib/store/signal.go:109-120 | Into the cache when there is one, else into the store. |
| `SessionCache.Device.GetManySessions` | whatsmeow-lib/store/sqlstore/store.go:174-205 | Every address asked for gets a row, nil when there is no session. |
| `GroupMembers.UpdateIsExact` | whatsmeow-lib/group.go:978-1007 | A duplicate-free list stays duplicate-free and its members become (members or Join) without Leave, despite the swap with the last. |
| `GroupMembers.EveryRunIsExact` | whatsmeow-lib/group.go:978-1007 | The same over any run of events. |
| `GroupMembers.UpdateCounts` | whatsmeow-lib/group.go:978-1007 | For any list, how often each member is listed afterwards. |
| `GroupMembers.GoneIff` | whatsmeow-lib/group.go:998-1006 | A member is gone if and only if it is named in Leave at least as often as it was listed. |
| `GroupMembers.ListedTwiceStays` | whatsmeow-lib/group.go:998-1006 | A member listed twice stays when it leaves once. |
| `GroupMembers.JoinAppends` | whatsmeow-lib/group.go:985-997 | Joining moves nobody, and only new members that joined come behind them. |
| `GroupMembers.UpdateGroupParticipantCache` | whatsmeow-lib/group.go:978-1007 | The nested loops compute that update, with the exact members for a duplicate-free list. |
| `GroupMembers.RemoveMember` | whatsmeow-lib/group.go:999-1005 | The first match is overwritten by the last member and the list cut by one. |
| `ParticipantHash.OrderDoesNotMatter` | whatsmeow-lib/send.go:664-673 | Any permutation of the device list has the same hash. |
| `ParticipantHash.HashesAgreeIff` | whatsmeow-lib/send.go:671-672 | With an injective base64 two texts have one hash if and only if their digests agree in their first six bytes. |
| `ParticipantHash.SortedUnique` | whatsmeow-lib/send.go:670-670 | There is one sorted arrangement of a list of strings. |
| `ParticipantHash.LeIff` | whatsmeow-lib/send.go:670-670 | The order of the sort, without recursion: a prefix first, otherwise the first different byte decides. |
| `ParticipantHash.TextIdentifies` | whatsmeow-lib/send.go:664-673 | For any class of bytes such that every user starts with one of them and has no ".", and no server name holds one, the hashed text is the same if and only if the lists hold the same devices equally often. |
| `ParticipantHash.NumbersAreSeparable` | whatsmeow-lib/types/jid.go:210-212 | Numeric users at the user, lid, hosted and messenger servers are such devices, with the digits as the class. |
| `ParticipantHash.TextCanMislead` | whatsmeow-lib/send.go:671-671 | Without that restriction one device can spell two. |
| `ParticipantHash.ParticipantListHashV2` | whatsmeow-lib/send.go:664-673 | The array filled in a loop, sorted in place, joined and hashed gives the specified hash. |

## Left out

- Cryptography (AES, HMAC, HKDF, SHA-256, X25519, Signal ratchets), protobuf and JSON: functions with stated laws.
- Token tables: a parameter with size bounds; the tables of the repository have 236 single and 4 x 256 double tokens.
- `Unpack` and its zlib decompression, which precede `Unmarshal`; the little-endian flag of the integer readers and writers, which no caller sets.
- Numbers are unbounded in trees: the writer formats them all alike, so the integer width of an attribute plays no part.
- Websocket dialing, timers, keep-alive, reconnecting, the size of the frame channel, and goroutine scheduling beyond the steps modelled.
- Cancellation of a context inside the send of `receiveResponse` is the step `GiveUp`; nothing is claimed about how often it happens.
- Store failures that the code only logs (`storeMACs`), and the rows of the SQL tables: the index of value MACs is a map. In the SQL store a second SET of one index within a patch meets the primary key and is only logged.
- The cache of app state keys, downloads of external patches and snapshots, and events dispatched for mutations.
- Fetching after a push asks for a snapshot when the version is 0; `AppStateSend` has a server that answers with the missing patches.
- Lengths of 2^62 and more in the extractor, and varints of more than 64 bits, which move its offset backwards and can make it run in circles: both are the outcome `Stuck`, of which nothing is said.
- Sharing of mutable session records between cache and callers: records are values.
- Direct deletion of sessions, which goes past the cache.
- `Stop` and the disconnect handlers of the noise socket, and the check of the server certificate, which is a parameter.
- The HTTP layer, configuration, message builders, media, newsletters, calls and presence.
- ResponseWaiters.Client.SendResponse: covers requests that were not cancelled meanwhile; the panic on the others is in `SendNeverBlocks` and `CancelledSendPanics`.
- ReportingTree.SameContent: asks for distinct numbers among the kept fields when fields are reordered, because the sort of equal numbers is not stable; without reordering `SameFilterSameBytes` asks for nothing of the kind.
- EventBuffer.Client.DecryptMessages: models the children that go through the buffer; children of other tags or types, bot messages, acknowledgements and receipts are not modelled.
- ParticipantHash.TextIdentifies: gives a condition under which the text identifies the list; pairs of lists outside it may or may not collide.
- AppStateProofs.KeepsSumIff: patches of 65536 mutations and more are not covered, because the counts of a lane wrap there.
