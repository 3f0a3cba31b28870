# Message rewriting and stateful stores, verified

This project models in Dafny the part of OmniSteam that rewrites the Steam client's network messages by hand, and the
stores that feed it: injected licenses, the script configuration, the caches of manifest codes, depot keys and DLC.
`dafny verify dfyconfig.toml` checks all of it.

| files | subject |
|---|---|
| `Words`, `Varints`, `Registers`, `Messages`, `ProtoFields`, `OverrideLaw`, `FieldReads` | machine words; the wire codec (Protocol Buffers Encoding, "Base 128 Varints" and "Last One Wins"; unsigned LEB128, section 7.6 of DWARF 5); a message as a sequence of fields; reading, pruning and appending fields |
| `PicsTokens`, `PicsReads`, `PersonaState`, `PersonaLaws`, `PersonaLimits`, `PersonaReads` | the rewriters of product-info requests and persona-state messages |
| `Frames`, `HeaderLaws`, `PacketPool`, `Delivery`, `Injection` | frames and headers, the ring of buffers, delivery on a borrowed packet, rewritten and synthesized responses |
| `ManifestJobs`, `LookupLaws` | requests waiting for a manifest response |
| `LicenseDelta`, `LicenseLaws`, `LicenseRuns` | managed ids on the client's own vector |
| `ConfigStore`, `ConfigRuns`, `ConfigReads` | the double-buffered configuration and all interleavings on it |
| `ManifestDisk`, `ManifestClient`, `ManifestLaws`, `ManifestRuns` | the manifest code cache, its log on disk, failures and the provider chain |
| `DepotKeys`, `DepotScans`, `DepotStore`, `DepotKeyTool`, `KeyTexts`, `DepotFormat` | the depot key index, its queries and imports, and the tool that writes its file |
| `DlcCache`, `DlcFormat`, `DlcStores`, `DlcRuns` | the DLC lists, the known ids and the cache file |
| `TextCodecs`, `TextLaws` | hex, percent and JSON texts |

Each imperative routine is a method with its loops, proved against a specification function; the laws are lemmas about
those functions. Bytes and 32- and 64-bit words are bounded integers, and every truncation the code performs is written
out. Each pass over a message is proved against one notion, `Fields`: the complete fields in front of the first malformed
one, read either as `ReadTag` reads them (field number 0 refused) or as the request patcher and the header parser do.
`FieldReads`, `PicsReads`, `PersonaReads`, `HeaderLaws`, `LookupLaws`, `ConfigReads`, `ManifestRuns`, `DepotScans` and
`DepotFormat` say what the specification functions mean, from the bytes, fields, records or events alone.

## Where the code does not do what it says

* A comment says license removals "only ever touch IDs previously injected by us" (`src/Hook/Hooks_Package.cpp:183`). The
  tracked list becomes the whole desired list, so an id the client had put in itself is removed once it was desired and is
  no longer: `LicenseLaws.NativeIdRemoved`, and exactly when in `LicenseLaws.NativeIdSurvivesIff`.
* Appending a field overrides an earlier one only on a well-formed message: `OverrideLaw.OverridesIffWellFormed`.
* Clearing the rich-presence flag masks the 64-bit status flags with a 32-bit word and drops their upper half, so patching
  for one app and then another is not always patching for the other: `PersonaLaws.PatchTwice` says exactly when it is,
  `PersonaLimits.UpperHalfIsLost` is a body on which it is not.
* A job id that is used again loses its new code as soon as its first queue entry expires:
  `ManifestJobs.CodeIsFoundIff` says exactly when a response still finds it.
* The comment at `src/Hook/Hooks_NetPacket.cpp:1120` speaks of an exhausted pool, which cannot happen; that branch is taken
  by a response larger than a buffer, which then blocks its queue for good: `Delivery.BlockedForGood`. A request that is
  itself within the limit can be answered by such a response: `Injection.AnswerOutgrowsBuffer`.
* The patcher of persona states never looks at the wire type of a friends field: a number is taken for a length, and what
  follows for an entry, inside the body (`PersonaLimits.NumberTakenForEntry`, `PersonaLimits.NumberRewritten`) or beyond
  it (`PersonaLimits.NumberLeavesBody`), although the scan in front of it (`PersonaLimits.SelfPresent`) looks at
  length-delimited ones alone. What the patcher owes every other field and friend it keeps exactly on the bodies of
  `PersonaLimits.OthersUntouchedIff`.
* A setting made through the setters is lost at the next reload: `ConfigRuns.SwapForgetsSettings`.
* A cache file whose header is foreign or whose last record is torn is appended to until it outgrows the limit and is
  rewritten from memory, and may hide what is stored meanwhile (`ManifestDisk.RepairedInTheEnd`):
  `ManifestDisk.StoreAgreesIff` says exactly when a store survives, `ManifestDisk.ReplayIsMemory` when a whole run does.
* A DLC cache file that lists a base twice can leave ids known that no list holds: `DlcCache.LoadAgreesIff`, with the file
  of `DlcCache.ReplacedListLeavesItsIds`; the store itself never writes such a file. A list of more than
  10000 ids is saved but cuts the file off when it is loaded: `DlcCache.SaveThenLoadIff`. A file cut off inside a list
  gives that list ids nobody stored, zero among them: `DlcFormat.CutFileReads`.
* A depot scan near the top of the id range finds nothing because its limit wraps: `DepotKeys.ScanRange`,
  `DepotKeys.WrappedScanMisses`.
* Unescaping does not understand the hexadecimal escapes that escaping writes: `TextCodecs.JsonRoundTripIff`.

## Model

| member | source | states |
|---|---|---|
| Varints.ReadVarint | src/Utils/Metadata/ProtoFields.h:20-35 | From any position of any buffer: success, value and number of bytes consumed are those of the specified decoding, including the value left behind by a read that fails after ten bytes or at the end of the buffer |
| Varints.WriteVarint | src/Utils/Metadata/ProtoFields.h:37-43 | Appends exactly the canonical base-128 encoding and changes nothing before it |
| Varints.RoundTrip | src/Utils/Metadata/ProtoFields.h:20-43 | For every 64-bit value and every suffix, reading what was written gives the value back and consumes exactly the written bytes |
| Varints.StrictPrefixRejected | src/Utils/Metadata/ProtoFields.h:30-34 | Every strict prefix of an encoding is rejected |
| Varints.EncodeLength | src/Utils/Metadata/ProtoFields.h:37-43 | The length of an encoding is the number of base-128 digits of the value, and one for zero |
| Varints.EncodeFits | src/Utils/Metadata/ProtoFields.h:37-43 | Encodings have one to ten bytes, ten exactly from 2^63 on |
| Varints.EncodeIsShortest | src/Utils/Metadata/ProtoFields.h:20-43 | Non-canonical encodings are accepted, but the canonical one of the same value is never longer |
| Varints.Value64Truncates | src/Utils/Metadata/ProtoFields.h:23-29 | A read of up to ten groups yields the base-128 number modulo 2^64 |
| Varints.DecodeIsLocal | src/Utils/Metadata/ProtoFields.h:20-35 | A complete read gives the same result from any bytes that start with the ones it consumed |
| Registers.OrAtPlace0 | src/Utils/Metadata/ProtoFields.h:25 | Or-ing the first seven-bit group onto the register adds the model's group to it; OrAtPlace1 to OrAtPlace8 say the same of the next eight places, each with its shift |
| Registers.OrAtPlace9 | src/Utils/Metadata/ProtoFields.h:23-29 | Or-ing the tenth group, of which only the lowest bit is left in the register, adds the model's group as well |
| Messages.FieldIsLocal | src/Utils/Metadata/ProtoFields.h:46-84 | A field that parses parses the same from its own bytes alone and with any suffix |
| Messages.FieldsOfFlatten | src/Utils/Metadata/ProtoFields.h:160-183 | Parsing undoes writing fields one after the other and goes on with what follows |
| Messages.FlattenOfFields | src/Utils/Metadata/ProtoFields.h:160-183 | A message is well-formed if and only if its parsed fields put together are its bytes; otherwise they are a prefix of it |
| Messages.Concatenation | src/Utils/Metadata/ProtoFields.h:160-183 | A well-formed message followed by anything has the fields of both, and is well-formed exactly when the rest is |
| Messages.StrictIsLenient | src/Utils/Metadata/PicsTokenInjector.cpp:50-86 | Whatever the reader that rejects field number 0 accepts, the request patcher's own loop reads as the same fields |
| FieldReads.FieldIff | src/Utils/Metadata/ProtoFields.h:46-84 | Bytes are a field exactly when they are one complete varint as the tag and behind it, by the tag's low three bits, one complete varint, eight bytes, a length and as many bytes, or four bytes; the strict reader also wants a number other than 0 |
| ProtoFields.ReadTag | src/Utils/Metadata/ProtoFields.h:46-53 | Consumes one varint; the field number is the tag shifted and truncated to 32 bits, and 0 is refused |
| ProtoFields.SkipPayload | src/Utils/Metadata/ProtoFields.h:56-84 | Skips exactly the payload of the four known wire types and refuses truncated payloads and other types |
| ProtoFields.GetScalarField | src/Utils/Metadata/ProtoFields.h:88-127 | Yields value and wire type of the last scalar with the number among the complete fields in front of the first malformed one |
| ProtoFields.GetVarintField | src/Utils/Metadata/ProtoFields.h:129-135 | Yields that value only if it came in as a varint |
| FieldReads.ScalarIsLast | src/Utils/Metadata/ProtoFields.h:86-127 | That scalar is the varint, or the little-endian value, in the payload of the last field with the number and wire type 0, 1 or 5 |
| ProtoFields.HasField | src/Utils/Metadata/ProtoFields.h:137-155 | True exactly if an intact field with the number comes before any malformed one |
| ProtoFields.WithoutFields | src/Utils/Metadata/ProtoFields.h:160-183 | Fails on malformed input, else yields the kept fields byte for byte in order |
| ProtoFields.PrunedFields | src/Utils/Metadata/ProtoFields.h:160-183 | Pruning succeeds exactly on well-formed messages, and its well-formed result has exactly the kept fields |
| ProtoFields.PruneTwice | src/Utils/Metadata/ProtoFields.h:160-183 | Removing one set and then another is removing their union; pruning again changes nothing |
| ProtoFields.PruneReads | src/Utils/Metadata/ProtoFields.h:88-183 | After pruning removed numbers are absent, and presence and scalar value of every kept number are unchanged |
| ProtoFields.AppendVarintField | src/Utils/Metadata/ProtoFields.h:187-190 | Appends the canonical varint field of that number and value |
| ProtoFields.AppendFixed64Field | src/Utils/Metadata/ProtoFields.h:192-197 | Appends the canonical eight-byte field of that number and value |
| ProtoFields.AppendBytesField | src/Utils/Metadata/ProtoFields.h:200-208 | Appends the canonical length-delimited field of that number and content |
| ProtoFields.VarintFieldIsValid | src/Utils/Metadata/ProtoFields.h:187-190 | The appended varint field parses as itself and carries its number and value |
| ProtoFields.Fixed64FieldIsValid | src/Utils/Metadata/ProtoFields.h:192-197 | The appended eight-byte field parses as itself and carries its number and value |
| ProtoFields.BytesFieldIsValid | src/Utils/Metadata/ProtoFields.h:200-208 | The appended length-delimited field parses as itself and carries its number and content |
| ProtoFields.AppendOverrides | src/Utils/Metadata/ProtoFields.h:185-197 | Last one wins: appending a scalar field to a well-formed message overrides that number, leaves every other number and all earlier fields alone, and keeps the message well-formed |
| OverrideLaw.OverridesIffWellFormed | src/Utils/Metadata/ProtoFields.h:185-190 | Appending a varint field reads back for every number and every value if and only if the message is well-formed |
| OverrideLaw.MalformedTailSwallows | src/Utils/Metadata/ProtoFields.h:185-190 | For every malformed message a concrete field and value that does not read back after being appended |
| PicsTokens.PatchAppEntry | src/Utils/Metadata/PicsTokenInjector.cpp:41-101 | An entry gets the configured token appended exactly when it is well-formed, names a non-zero app with a non-zero configured token and does not already end up with that token |
| PicsTokens.PatchProductInfoRequest | src/Utils/Metadata/PicsTokenInjector.cpp:105-167 | Reports a change exactly when some entry of an acceptable request lacks its token, and then holds the patched request; otherwise the output buffer is untouched |
| PicsTokens.TokenIsLast | src/Utils/Metadata/PicsTokenInjector.cpp:97-100 | The patched entry is the old fields followed by the token, still names the same app, and the token is its last one |
| PicsTokens.PatchedEntryLacksNothing | src/Utils/Metadata/PicsTokenInjector.cpp:91-99 | A patched entry is not patched again |
| PicsTokens.OnePassIsEnough | src/Utils/Metadata/PicsTokenInjector.cpp:116-167 | The output is well-formed, has the fields of the input in order with only patched entries replaced, lacks nothing, and patching it reports no change |
| PicsTokens.EveryEntryCarriesItsToken | src/Utils/Metadata/PicsTokenInjector.cpp:39-101 | After a success every well-formed app entry with a non-zero configured token has that token as its last one |
| PicsTokens.OtherFieldsKeepTheirBytes | src/Utils/Metadata/PicsTokenInjector.cpp:132-157 | Field by field the output is the input, except for app entries that lacked their token, which got it appended |
| PicsReads.MissingIff | src/Utils/Metadata/PicsTokenInjector.cpp:41-101 | An entry lacks a token exactly when it is well-formed, its last varint 1, cut to 32 bits, is an app other than 0 with that token configured and not 0, and its last varint 2 is not that token |
| PicsReads.ChangedIff | src/Utils/Metadata/PicsTokenInjector.cpp:105-167 | A request is changed exactly when it has 1 to 1048576 bytes, is well-formed, and the content of some field with tag 0x0A lacks its token |
| PicsReads.FieldByField | src/Utils/Metadata/PicsTokenInjector.cpp:132-157 | A field that lacks its token gains it behind its content, as a byte 0x10 and a varint, and every other field keeps its bytes |
| PersonaState.FlagOperationsWhenSet | src/Hook/Hooks_NetPacket.cpp:868-875 | With the flag set, the or and the and with the complemented 32-bit flag act on a 64-bit word as the model's arithmetic does |
| PersonaState.FlagOperationsWhenClear | src/Hook/Hooks_NetPacket.cpp:868-875 | The same with the flag clear: clearing keeps only the lower half of the word |
| PersonaState.FlagsCompose | src/Hook/Hooks_NetPacket.cpp:868-875 | Updating the flags for one app and then another is updating them for the other, unless the first clears a value above 32 bits and the second sets the flag |
| PersonaState.AppendKVField | src/Hook/Hooks_NetPacket.cpp:791-796 | Appends one key and value pair as a nested length-delimited field |
| PersonaState.AppendPresence | src/Hook/Hooks_NetPacket.cpp:850-856 | Appends app id, game id and every stored pair, or nothing when clearing |
| PersonaState.PatchPersonaStateBody | src/Hook/Hooks_NetPacket.cpp:800-883 | For every body: reports whether each friends entry, as it is read whatever its wire type, lies inside the body, and if so yields the specified rewrite: own entries pruned and announced anew, status flags moved to the end and updated, everything else copied; none on malformed input |
| PersonaReads.PatchedReads | src/Hook/Hooks_NetPacket.cpp:800-883 | For every accepted body and every app the output is well-formed: its fields are those of the input in order without the status flags, friends entries of the local user rewritten and every other field kept, and at the end the status field, absent only when there was none and neither clearing nor pairs announce anything |
| PersonaLaws.PatchedIsFieldwise | src/Hook/Hooks_NetPacket.cpp:833-848 | If the friends entries are length-delimited, the patcher stays inside the body and what it reads as entries are the contents of the friends fields |
| PersonaReads.EntryIsRewritten | src/Hook/Hooks_NetPacket.cpp:844-857 | A rewritten entry is the original without its fields 3, 55, 56 and 71 and then, unless clearing, field 3 and field 56 with the app and one field 71 for each stored pair in order, holding its key under 1 and its value under 2 |
| PersonaReads.NewFlagsBecome | src/Hook/Hooks_NetPacket.cpp:866-875 | Bit 12 of the new flags is set exactly when clearing or when pairs are stored for the app, the other low 32 bits are kept, and the upper half is kept if the bit is set and zero otherwise |
| PersonaReads.StatusFlagsAreLast | src/Hook/Hooks_NetPacket.cpp:826-832 | The old flags are the varint behind the tag of the last status field, whatever its wire type, and there are none exactly without such a field |
| PersonaLaws.PatchedFields | src/Hook/Hooks_NetPacket.cpp:816-882 | On such a body the output is well-formed and its fields are the rewritten ones followed by the status flags, which read as the updated value |
| PersonaLaws.PatchedStaysDelimited | src/Hook/Hooks_NetPacket.cpp:816-882 | The output is again a body with length-delimited friends entries, so it can be patched again |
| PersonaLaws.PatchTwice | src/Hook/Hooks_NetPacket.cpp:800-883 | On a body with length-delimited friends entries, patching for one app and then another equals, byte for byte, patching for the other alone, if and only if the last patch decides the status flags |
| PersonaLaws.PatchIsIdempotent | src/Hook/Hooks_NetPacket.cpp:800-883 | On a body with length-delimited friends entries, patching again for the same app changes no byte |
| PersonaLimits.UpperHalfIsLost | src/Hook/Hooks_NetPacket.cpp:868-875 | A body with an own entry and status flags of 2^32 on which the second patch alone does not decide, because the first one lost the upper half |
| PersonaLaws.PatchSucceedsIff | src/Hook/Hooks_NetPacket.cpp:816-866 | On every body the patcher stays inside of, it succeeds exactly if the message is well-formed and so is every entry of the local user as it reads them |
| PersonaLaws.DelimitedIntactIff | src/Hook/Hooks_NetPacket.cpp:833-848 | On a body with length-delimited friends entries these are the friends fields that name the local user |
| PersonaLimits.NumberTakenForEntry | src/Hook/Hooks_NetPacket.cpp:833-848 | A well-formed body with an intact own entry, and no broken one, that is rejected, because a friends field holding a number is read as a length and what follows it as an own entry |
| PersonaLimits.NumberRewritten | src/Hook/Hooks_NetPacket.cpp:833-861 | A well-formed body of an own entry, a friends field holding a number and a status field: the output starts with the own entry twice, the second time in place of the number |
| PersonaLimits.NumberLeavesBody | src/Hook/Hooks_NetPacket.cpp:833-843 | A well-formed body with an own entry for which another entry read lies beyond the body |
| PersonaLimits.SelfPresent | src/Hook/Hooks_NetPacket.cpp:949-971 | The scan in front of the patcher reports exactly whether a length-delimited friends field in front of any malformed field names the local user |
| PersonaLimits.OthersUntouchedIff | src/Hook/Hooks_NetPacket.cpp:824-866 | For every body the patcher stays inside of and accepts: the fields that are neither status flags nor own entry keep their bytes and relative order if and only if no friends field is taken for an own entry that it is not |
| PersonaLimits.OthersAreUntouched | src/Hook/Hooks_NetPacket.cpp:824-866 | In particular they do whenever the friends entries are length-delimited |
| PersonaLaws.EntryShowsApp | src/Hook/Hooks_NetPacket.cpp:842-857 | A rewritten entry reads as exactly the announced app, or none when cleared, and every scalar that is not replaced reads as before |
| PersonaLaws.EntryPrunesBack | src/Hook/Hooks_NetPacket.cpp:844-857 | Pruning a rewritten entry gives what pruning the original gave |
| Frames.UnpackRaw | src/Hook/Hooks_NetPacket.cpp:120-138 | Accepts exactly frames with the protobuf flag whose header, offset computed in 32 bits, lies inside, and yields the parts |
| Frames.UnpackFrame | src/Hook/Hooks_NetPacket.cpp:120-138 | Unpacking an assembled frame gives back message number, header and body |
| Frames.UnpackIff | src/Hook/Hooks_NetPacket.cpp:120-138 | Byte by byte: accepts exactly eight or more bytes whose fourth has the top bit set and whose header length plus 8, modulo 2^32, is within the frame, and yields the little-endian number without that bit, the header length and that offset |
| Frames.FrameUnpacked | src/Hook/Hooks_NetPacket.cpp:120-138 | Whatever unpacks with its header inside is the frame assembled from its parts |
| Frames.ReadLoose | src/Hook/Hooks_NetPacket.cpp:108-114 | The lenient varint: a malformed one reads as zero with its bytes consumed |
| Frames.ParseProtoHeader | src/Hook/Hooks_NetPacket.cpp:140-185 | Ends on every byte string, each turn consuming at least one byte, with the specified job ids and job name |
| Frames.ParseOverFields | src/Hook/Hooks_NetPacket.cpp:148-183 | Over well-formed bytes the parser takes the fields one after the other, later ones winning |
| HeaderLaws.HeaderReads | src/Hook/Hooks_NetPacket.cpp:140-185 | Over a well-formed header the source and target job id are the values of the last field 10 and 11 of wire type 0 or 1, zero if none, and the job name is the content of the last length-delimited field 12, empty if none |
| HeaderLaws.CutHeaderReads | src/Hook/Hooks_NetPacket.cpp:140-185 | A header cut off inside its last field reads as without that field, except that a cut-off job id reads as zero and a job name cut off inside its length as empty |
| HeaderLaws.UnknownTypeEnds | src/Hook/Hooks_NetPacket.cpp:140-185 | A field of a wire type other than 0, 1, 2 and 5 ends the header |
| HeaderLaws.OverlongReadsZero | src/Hook/Hooks_NetPacket.cpp:108-185 | A number that goes on for ten bytes and more reads as zero, and the header goes on behind the ten |
| PacketPool.Pool.AcquirePacketSlot | src/Hook/Hooks_NetPacket.cpp:71-78 | Hands out the next of the 32 buffers, or none for a larger request without moving on |
| PacketPool.ConsecutiveSlotsDiffer | src/Hook/Hooks_NetPacket.cpp:67-78 | Any 32 consecutive acquisitions return distinct buffers |
| PacketPool.BuildPooledFrame | src/Hook/Hooks_NetPacket.cpp:230-245 | Assembles exactly the frame of the word, header and body in the next buffer and touches no other buffer; none when it does not fit |
| Delivery.TryDeliverQueue | src/Hook/Hooks_NetPacket.cpp:1100-1134 | Hands the non-empty responses to the receiver in order up to the first that fits no buffer, leaves the rest queued, and restores the carrier's data and size; the carrier's bytes are untouched unless they lie in a buffer handed out meanwhile |
| Delivery.AllDeliveredIffAllFit | src/Hook/Hooks_NetPacket.cpp:1104-1133 | The queue empties if and only if every response fits a buffer, and then each non-empty one arrives once, in order |
| Delivery.NothingIsLost | src/Hook/Hooks_NetPacket.cpp:1119-1124 | What was delivered followed by what stays queued is the queue |
| Delivery.BlockedForGood | src/Hook/Hooks_NetPacket.cpp:1118-1124 | After a response that fits no buffer was met, no later attempt delivers anything, whatever is queued in between, and everything queued is still there |
| Injection.LegacyResponseLength | src/Utils/Metadata/StatsResponse.h:60-67 | The answer to a legacy request is 21 bytes longer than the request's header |
| Injection.AnswerOutgrowsBuffer | src/Hook/Hooks_NetPacket.cpp:514-546 | A request that is itself within the packet limit, names a game and has a header of 66548 to 66551 bytes is answered with a packet over the limit |
| Injection.TryInjectRequestCode | src/Hook/Hooks_NetPacket.cpp:247-269 | Points the packet at the rewritten frame exactly when that fits a buffer, else leaves the packet alone |
| Injection.InjectedFrameReads | src/Hook/Hooks_NetPacket.cpp:247-269 | Unpacking the rewritten frame gives number 147, the new header and the new body, which begin with the old ones; a well-formed header keeps its job ids, its name and every scalar but field 13, which reads 1, and a well-formed body every scalar but field 1, which reads the code |
| Injection.OtherHeaderFieldIgnored | src/Hook/Hooks_NetPacket.cpp:148-183 | Appending any varint field that is no job id leaves what the header parser finds unchanged |
| Injection.AssemblePacket | src/Utils/Metadata/StatsResponse.h:33-45 | Fills a fresh buffer with exactly the frame of message number, header and body |
| Injection.BuildServiceResponse | src/Utils/Metadata/StatsResponse.h:48-55 | The packet is the frame of job id, job name and success with an empty body |
| Injection.ServiceResponseReads | src/Utils/Metadata/StatsResponse.h:48-55 | The header parser finds that job id and name in it, and the result field reads success |
| Injection.BuildLegacyResponse | src/Utils/Metadata/StatsResponse.h:60-67 | The packet is the frame of the given header and the rebuilt body |
| Injection.LegacyResponseReads | src/Utils/Metadata/StatsResponse.h:63-65 | That body reads as the game id, success and a zero checksum |
| ManifestJobs.ManifestTables.PruneStaleManifestJobs | src/Hook/Hooks_NetPacket.cpp:90-97 | Pops the stale jobs in front of the queue and erases their ids from both maps |
| ManifestJobs.ManifestTables.RememberInstant | src/Hook/Hooks_NetPacket.cpp:420-423 | Stores the cached code under the job, queues the job and prunes |
| ManifestJobs.ManifestTables.RememberPending | src/Hook/Hooks_NetPacket.cpp:430-433 | Stores the lookup in flight under the job, queues the job and prunes |
| ManifestJobs.ManifestTables.HandleManifestResponse | src/Hook/Hooks_NetPacket.cpp:586-621 | Takes a stored code, or else a finished lookup, out of the tables and yields the code to inject |
| ManifestJobs.AlwaysTracked | src/Hook/Hooks_NetPacket.cpp:80-97 | In every reachable state each key of either map has an entry in the queue, even when job ids repeat |
| ManifestJobs.NothingStaleAfterSend | src/Hook/Hooks_NetPacket.cpp:90-97 | With a clock that does not run backwards, after every send no queue entry is older than the time to live, so every pending job has an entry that young |
| ManifestJobs.PruneForgets | src/Hook/Hooks_NetPacket.cpp:90-97 | Pruning forgets a job exactly if one of its queue entries is stale |
| ManifestJobs.QueueHolds | src/Hook/Hooks_NetPacket.cpp:80-97 | With a clock that does not run backwards, the queue after any run holds exactly the sends that were not stale at the last one |
| ManifestJobs.SendIsRemembered | src/Hook/Hooks_NetPacket.cpp:420-423 | A code just sent is remembered if and only if no older entry of the same id has expired |
| ManifestJobs.CodeIsFoundIff | src/Hook/Hooks_NetPacket.cpp:420-434 | Over every such run, a response finds the code stored for its job, if it was neither answered nor stored again since, if and only if no send of that id, queued when the code was stored or made since, was stale at a later send |
| ManifestJobs.ReusedIdIsForgotten | src/Hook/Hooks_NetPacket.cpp:420-423 | A run in which a re-used job id loses its new code at once |
| ManifestJobs.CodesAreUsedOnce | src/Hook/Hooks_NetPacket.cpp:593-597 | Over every run the stored codes of a job are injected at most as often as they were stored |
| LookupLaws.LookupIsFoundIff | src/Hook/Hooks_NetPacket.cpp:420-434 | Over every run with a clock that does not run backwards, a response finds the lookup begun for its job, if it was neither answered nor looked up again since, if and only if no send of that id, queued when the lookup began or made since, was stale at a later send |
| LookupLaws.LookupIsAnswered | src/Hook/Hooks_NetPacket.cpp:586-621 | Without a code stored for the job, the response is then answered with what the lookup yields, and the next one with nothing |
| LookupLaws.CodeGoesFirst | src/Hook/Hooks_NetPacket.cpp:589-612 | A stored code is answered before a lookup, and the lookup stays for the next response |
| LookupLaws.LookupsAreTakenOnce | src/Hook/Hooks_NetPacket.cpp:599-604 | Over every run a lookup is taken at most as often as it was begun |
| LicenseDelta.CUtlVector.FastRemoveValue | src/Hook/Hooks_Package.cpp:107-116 | Overwrites the first occurrence with the last element and shortens by one; reports whether there was one |
| LicenseDelta.CUtlVector.NativeGrow | src/Hook/Hooks_Package.cpp:77-84 | The assumed behaviour of the client's own growth routine: the stored elements are kept and the room asked for is there |
| LicenseDelta.CUtlVector.GrowAndAppend | src/Hook/Hooks_Package.cpp:60-105 | On all three growth paths the contents become the old ones followed by the values and the size stays within the capacity; fails, changing no content, only when no path yields memory |
| LicenseDelta.RemoveDroppedIds | src/Hook/Hooks_Package.cpp:191-200 | Removes the tracked ids that are no longer desired, one after the other |
| LicenseDelta.CollectAdditions | src/Hook/Hooks_Package.cpp:202-224 | Collects the desired ids that are not present, in order |
| LicenseDelta.ApplyToVector | src/Hook/Hooks_Package.cpp:189-227 | One vector becomes the specified delta of its old contents: removals, then additions |
| LicenseDelta.Injected.ApplyDesiredLicenseDelta | src/Hook/Hooks_Package.cpp:184-236 | Both vectors become the specified delta of their old contents, and each tracked list becomes the desired one if its vector could grow |
| LicenseLaws.FastRemoveCounts | src/Hook/Hooks_Package.cpp:107-116 | Removal takes away one occurrence of the value and nothing else |
| LicenseRuns.RemovalMovesLast | src/Hook/Hooks_Package.cpp:107-116 | The last element moves to the place of the first occurrence, and every other place is left alone |
| LicenseRuns.AddedInOrder | src/Hook/Hooks_Package.cpp:202-224 | What is added comes in the order in which it is desired |
| LicenseLaws.DeltaSet | src/Hook/Hooks_Package.cpp:184-236 | After a delta that grew, the ids are the old ones without the tracked undesired ones, plus the desired ones |
| LicenseLaws.UniqueIffNoDuplicates | src/Hook/Hooks_Package.cpp:181-182 | Occurring at most once and having no two equal positions are the same |
| LicenseLaws.RunStaysUnique | src/Hook/Hooks_Package.cpp:181-236 | Over every run of deltas on a duplicate-free vector no duplicate ever appears, whether or not the vector could grow |
| LicenseLaws.RunConservesOthers | src/Hook/Hooks_Package.cpp:181-236 | Over every run an id that was never desired occurs exactly as often as at the start |
| LicenseLaws.RunClosedForm | src/Hook/Hooks_Package.cpp:184-236 | From nothing tracked, with all growth succeeding: the final ids are the initial ones without everything ever desired, plus what is desired last |
| LicenseLaws.RepeatChangesNothing | src/Hook/Hooks_Package.cpp:181-236 | Repeating the last delta leaves vector and tracked list exactly as they are |
| LicenseRuns.FailedDeltaSet | src/Hook/Hooks_Package.cpp:184-236 | After a delta that could not grow, the ids are the old ones without the tracked undesired ones |
| LicenseRuns.TrackedIsLastGrown | src/Hook/Hooks_Package.cpp:228-236 | Over every run the tracked list is what was desired last by a delta that grew |
| LicenseRuns.RunMembership | src/Hook/Hooks_Package.cpp:181-236 | Over every run on a duplicate-free vector, whichever deltas could grow: an id that some delta that grew desired is there if and only if every delta since the last of these desired it, and any other id if and only if it was there at the start |
| LicenseLaws.NativeIdSurvivesIff | src/Hook/Hooks_Package.cpp:229-233 | An id the client had put in itself survives a run if and only if no delta desired it or the last one does |
| LicenseLaws.NativeIdRemoved | src/Hook/Hooks_Package.cpp:181-183 | Two deltas that remove an id which was in the vector before and which no delta appended |
| ConfigStore.LuaStore.BeginStaging | src/Utils/Config/LuaConfig.cpp:313-318 | Empties the inactive slot and leaves the active one and the index alone |
| ConfigStore.LuaStore.RecordInto | src/Utils/Config/LuaConfig.cpp:59-103 | Writes one record of a script into the given slot only |
| ConfigStore.LuaStore.Activate | src/Utils/Config/LuaConfig.cpp:325-330 | Makes the staged slot the active one and empties the other |
| ConfigStore.LuaStore.SetAccessToken | src/Utils/Config/LuaConfig.cpp:372-380 | Sets, or with an empty text erases, the app's token in the active slot only |
| ConfigStore.LuaStore.SetStatSteamId | src/Utils/Config/LuaConfig.cpp:392-400 | Sets, or with an empty text erases, the app's stat id in the active slot only |
| ConfigStore.LuaStore.Has | src/Utils/Config/LuaConfig.cpp:337-342 | Whether the published snapshot lists the id as unlocked or with a key |
| ConfigStore.LuaStore.GetStatSteamId | src/Utils/Config/LuaConfig.cpp:382-390 | The published stat id of the app, else the one under zero, else nothing |
| ConfigStore.LuaStore.ReloadDirectories | src/Utils/Config/LuaConfig.cpp:310-332 | A reload with nothing in between shows exactly what its scripts recorded and leaves the inactive slot empty |
| ConfigRuns.RunsKeepInvariant | src/Utils/Config/LuaConfig.cpp:37-44 | In every interleaving only the owner of the reload lock is staging, and both slots hold what the history says |
| ConfigRuns.ReadersSeePublished | src/Utils/Config/LuaConfig.cpp:334-400 | In every interleaving a reader sees exactly the last published snapshot with the settings made since |
| ConfigRuns.StagingIsExclusive | src/Utils/Config/LuaConfig.cpp:310-323 | Concurrent reloads never stage at the same time, and the staging slot is never the one being read |
| ConfigRuns.InactiveIsEmpty | src/Utils/Config/LuaConfig.cpp:325-330 | Whenever no reload is staging, the inactive slot is empty |
| ConfigRuns.ViewChangesAtSwap | src/Utils/Config/LuaConfig.cpp:325-330 | Among all reload steps only the swap changes the view, and it shows the staged records as a whole |
| ConfigRuns.SwapForgetsSettings | src/Utils/Config/LuaConfig.cpp:325-380 | After a swap the view is as if a setting made before it had never been made |
| ConfigRuns.TokenLastsUntilSwap | src/Utils/Config/LuaConfig.cpp:372-380 | Until the next swap, and until it is set again, the token set is the token read |
| ConfigRuns.StatLastsUntilSwap | src/Utils/Config/LuaConfig.cpp:392-400 | The same for the stat id |
| ConfigReads.RecordsShow | src/Utils/Config/LuaConfig.cpp:59-202 | What a reload shows, from its records alone: an id is unlocked exactly if some record adds it with or without a key; its key and manifest are those of the last record for it, its token, stat id and cd key those of the last with a text, its modules all paths in order, and the url is the last non-empty one |
| ConfigReads.SwapShowsRecords | src/Utils/Config/LuaConfig.cpp:310-400 | In every interleaving, from a reload's swap to the next one, readers see exactly that for the records made since the reload began, but for tokens and stat ids set since |
| ConfigReads.ReloadRuns | src/Utils/Config/LuaConfig.cpp:310-332 | Whenever the reload lock is free any thread can reload, and afterwards readers see what its scripts recorded |
| ManifestClient.Client.LoadDiskCacheLocked | src/Utils/Metadata/ManifestClient.cpp:38-74 | Loads the file once: nothing from a foreign or short header, else records first-wins until the stream or the cap ends |
| ManifestClient.Client.AppendDiskCache | src/Utils/Metadata/ManifestClient.cpp:76-116 | Appends one record, or rewrites an absent, empty or oversized file from the whole map in some order |
| ManifestClient.Client.StoreRequestCode | src/Utils/Metadata/ManifestClient.cpp:288-297 | Ignores zeros; otherwise forgets a failure, keeps the first code of the id, and writes the file |
| ManifestClient.Client.MarkRequestCodeFailed | src/Utils/Metadata/ManifestClient.cpp:299-305 | Remembers the first failure time; an overfull failure cache is emptied |
| ManifestClient.Client.GetCachedRequestCode | src/Utils/Metadata/ManifestClient.cpp:269-274 | The stored code after the file was loaded, else zero |
| ManifestClient.Client.IsNegativeCached | src/Utils/Metadata/ManifestClient.cpp:276-286 | Whether a failure younger than ten minutes is remembered; an older one is erased |
| ManifestClient.Client.FetchManifestRequestCode | src/Utils/Metadata/ManifestClient.cpp:307-353 | New caches, code and the list of providers asked are those of the specified lookup, and the file changes by at most one store |
| ManifestDisk.LoadAppend | src/Utils/Metadata/ManifestClient.cpp:61-72 | Replaying complete records followed by more is replaying one after the other |
| ManifestDisk.LoadEnumeration | src/Utils/Metadata/ManifestClient.cpp:93-106 | Replaying a rewritten stream gives back the map it was written from, whatever the order |
| ManifestDisk.LoadAgrees | src/Utils/Metadata/ManifestClient.cpp:38-74 | What loading an absent, empty or well-formed file puts in memory is what replaying it yields |
| ManifestDisk.StoreKeepsAgreement | src/Utils/Metadata/ManifestClient.cpp:76-116 | A store keeps memory and file in agreement, whichever branch writes the file |
| ManifestDisk.ReplayIsMemory | src/Utils/Metadata/ManifestClient.cpp:38-116 | After loading an absent, empty or well-formed file, for every run of stores: memory holds the first code written for each id, and replaying the file yields exactly that if and only if there are at most 65536 ids |
| ManifestDisk.StoreAgreesIff | src/Utils/Metadata/ManifestClient.cpp:38-116 | After loading any file whatsoever, storing a new id keeps replay and memory equal if and only if the file is rewritten, or has the right header and the appended record is read as itself behind what a torn last record left |
| ManifestDisk.TornFileHidesStore | src/Utils/Metadata/ManifestClient.cpp:63-72 | A file with one stray byte behind its header and a store that its replay does not show |
| ManifestDisk.ForeignFileHidesStores | src/Utils/Metadata/ManifestClient.cpp:85-113 | A store appended to a file with a foreign header of full length is not shown by the replay, which stays empty |
| ManifestDisk.RewriteRepairs | src/Utils/Metadata/ManifestClient.cpp:85-106 | Whatever a file over the limit held, the next store rewrites it, and its replay and memory agree |
| ManifestDisk.OversizedIsRepaired | src/Utils/Metadata/ManifestClient.cpp:85-113 | That agreement lasts over every run that goes on from there, as long as memory has room |
| ManifestDisk.RepairedInTheEnd | src/Utils/Metadata/ManifestClient.cpp:85-113 | Whatever file a run starts with: after 65538 stores of non-zero ids and codes, if at most 65536 ids are held, replaying the file yields the in-memory map |
| ManifestLaws.CachesStayDisjoint | src/Utils/Metadata/ManifestClient.cpp:276-353 | In every run a known code and a remembered failure exclude each other |
| ManifestLaws.ProvidersInOrder | src/Utils/Metadata/ManifestClient.cpp:324-352 | A lookup that goes upstream asks each provider at most once in rotated order, stops at the first answer, and fails only if all fail |
| ManifestLaws.NoRetryWithinTtl | src/Utils/Metadata/ManifestClient.cpp:276-353 | After a failure no lookup of that id goes upstream for ten minutes, unless the failure cache overflowed |
| ManifestLaws.RetryAfterTtl | src/Utils/Metadata/ManifestClient.cpp:276-353 | After a failure, whatever other ids are looked up meanwhile without overflow, the next lookup of the id goes upstream if and only if the ten minutes are over |
| ManifestLaws.ClientRunIsRun | src/Utils/Metadata/ManifestClient.cpp:38-40 | The client reads its file before it first changes it, so its run is the run with the file it started with |
| ManifestRuns.RunAsksFromLastAnswerer | src/Utils/Metadata/ManifestClient.cpp:329-347 | In every run a lookup asks the three providers going round from the one that answered last, from the first if none has |
| ManifestRuns.NobodyAnswers | src/Utils/Metadata/ManifestClient.cpp:333-350 | A lookup is without a winner exactly when none of the three answers |
| ManifestRuns.CodeIsRemembered | src/Utils/Metadata/ManifestClient.cpp:307-347 | A code once found answers every later lookup of the id in the run, and nobody is asked for it again |
| ManifestRuns.FileCodeIsAnswered | src/Utils/Metadata/ManifestClient.cpp:38-74 | A code in the file answers the first lookup of its id already |
| ManifestRuns.FailuresAreBounded | src/Utils/Metadata/ManifestClient.cpp:299-305 | In every run at most 65536 failures are remembered |
| ManifestRuns.OverflowForgets | src/Utils/Metadata/ManifestClient.cpp:299-305 | The failure that would be one too many makes the client forget them all |
| ManifestRuns.FirstFailureIsKept | src/Utils/Metadata/ManifestClient.cpp:299-305 | Noting a failure again keeps the time of the first one |
| ManifestRuns.FirstCodeIsKept | src/Utils/Metadata/ManifestClient.cpp:288-297 | Over every run of stores an id keeps the code it had, or else the first non-zero one stored for it |
| ManifestRuns.FileLoadsFirst | src/Utils/Metadata/ManifestClient.cpp:60-72 | A file of complete records, whatever its header counts, loads the first non-zero code recorded for each id, up to 65536 ids |
| ManifestRuns.StoreWrites | src/Utils/Metadata/ManifestClient.cpp:85-113 | A store appends sixteen bytes, id and code, to a file of 1 to 1048588 bytes, and makes any other one as long as a header and one record for each id in memory |
| ManifestRuns.HeaderIff | src/Utils/Metadata/ManifestClient.cpp:50-58 | A file is taken exactly when it starts with QCRM and version 1 and has room for the count |
| DepotStore.DepotKeyStore.ParseBinaryContent | apps/manager/src/DepotKeyStore.cpp:47-84 | Accepts exactly buffers with the right header, a plausible count and room for the records, and then holds those records in order; a rejected buffer leaves the index as it was |
| DepotStore.DepotKeyStore.ImportKey | apps/manager/src/DepotKeyStore.cpp:104-118 | Puts a usable key in at its place unless its depot already has one |
| DepotStore.DepotKeyStore.ImportKeysFromConfig | apps/manager/src/DepotKeyStore.cpp:102-127 | Does so for every key found, in the order found |
| DepotStore.DepotKeyStore.GetKeyForDepot | apps/manager/src/DepotKeyStore.cpp:273-286 | Binary search answers as linear search does; nothing before initialization |
| DepotStore.DepotKeyStore.FindDepotKeysForApp | apps/manager/src/DepotKeyStore.cpp:297-339 | The keys found are exactly the depots specified for the app (range 25) and each DLC (range 10), each with the key of its last record |
| DepotStore.DepotKeyStore.FindKeysForDepotIds | apps/manager/src/DepotKeyStore.cpp:341-355 | Exactly the requested ids that are stored, each with the text a single lookup gives |
| DepotStore.ImportNeverOverwrites | apps/manager/src/DepotKeyStore.cpp:102-127 | Imports keep the index (strictly) ascending, never replace a key, and for a depot without one take the first usable one listed |
| DepotKeys.SortRecords | apps/manager/src/DepotKeyStore.cpp:80-81 | Sorts: ascending, the same records, strictly ascending if no id repeats |
| DepotKeys.LowerBound | apps/manager/src/DepotKeyStore.cpp:109-110 | Binary search finds the first record not below the id |
| DepotKeys.FindAtLowerBound | apps/manager/src/DepotKeyStore.cpp:279-284 | On an ordered index the lower bound decides whether an id is stored and with which key |
| DepotKeys.ScanRange | apps/manager/src/DepotKeyStore.cpp:313-326 | The scan equals its specification: a stored depot from base to base plus range is found if and only if it is not filtered, no step between stored ids on the way is larger than the gap, and base plus range does not overflow; past that a scan finds nothing |
| DepotKeys.WrappedScanMisses | apps/manager/src/DepotKeyStore.cpp:317 | The last id of all, scanned for itself: in reach but not found, because the limit wraps in 32 bits |
| DepotScans.ScanFindsChains | apps/manager/src/DepotKeyStore.cpp:313-326 | A scan finds exactly the stored depots up to the end of its range, none below 10 and none of 228980 to 228999, that a chain of stored ids with steps of at most five leads to from the base, and none at all if the end of the range is no 32-bit id |
| DepotScans.QueryFindsChains | apps/manager/src/DepotKeyStore.cpp:297-339 | A query finds exactly what scans of 25 ids from the app and of 10 ids from each DLC find; zero is no app |
| DepotKeys.CollectedIsLookup | apps/manager/src/DepotKeyStore.cpp:320-322 | Without duplicate ids a scan reports for each depot what a lookup answers |
| DepotKeyTool.ValidateHexKey | tools/depot_key_tool.py:25-39 | A text is a key exactly if, trimmed and lower-cased, it is 64 hex digits with at least eight different ones; the all-0 and all-f checks exclude nothing more |
| KeyTexts.StripIs | tools/depot_key_tool.py:25-39 | Trimming takes away white space at both ends and nothing else |
| KeyTexts.CleanIs | tools/depot_key_tool.py:25-39 | Of the trimmed text upper-case letters are lowered and every other character is kept |
| KeyTexts.KeyTextIff | tools/depot_key_tool.py:25-39 | A text is taken exactly if, trimmed and lowered, it is 64 hexadecimal digits that no seven characters make up |
| DepotKeyTool.PackKeysToBin | tools/depot_key_tool.py:41-69 | Writes header and one record for each id with a valid key, ids strictly ascending; refuses a count that does not fit 32 bits |
| DepotKeyTool.UnpackBinToDict | tools/depot_key_tool.py:71-102 | Refuses short, foreign, wrong-version and truncated data, else yields the dictionary of the records, later ones winning |
| DepotKeyTool.PackingIsDetermined | tools/depot_key_tool.py:43-58 | The packed records depend on the map alone, not on the order it is walked in |
| DepotKeyTool.PackedFileReads | apps/manager/src/DepotKeyStore.cpp:53-78 | The store accepts a packed file exactly up to five million records and reads the records that were packed |
| DepotKeyTool.PackThenParse | apps/manager/src/DepotKeyStore.cpp:47-84 | Writer to reader: the index is strictly ascending, and every lookup answers with the map's valid key, trimmed and lower-cased, or with nothing |
| DepotKeyTool.PackThenUnpack | tools/depot_key_tool.py:41-102 | The tool reads its own file back as exactly the valid part of the map, trimmed and lower-cased |
| DepotKeyTool.RepackIsStable | tools/depot_key_tool.py:41-102 | Packing what was read back gives the same records |
| DepotFormat.AcceptsIff | apps/manager/src/DepotKeyStore.cpp:47-84 | The store accepts exactly the buffers that begin with the packed file of at most five million records, and those are the records it parses |
| DepotFormat.UnpackableIff | tools/depot_key_tool.py:71-102 | The tool reads exactly the buffers that begin with a packed file of fewer than 2^32 records, and those are the records it reads |
| DepotKeyTool.KeyTextIsClean | tools/depot_key_tool.py:27-37 | The hex text of a valid key's bytes is its trimmed lower-case text |
| DepotKeyTool.CleanTwice | tools/depot_key_tool.py:27-37 | That text is itself valid and means the same key |
| DlcStores.DlcStore.Initialize | src/Utils/Metadata/DlcStore.cpp:44-103 | Reads the file once and takes its entries in turn, later lists of the same base replacing earlier ones |
| DlcStores.LoadEntries | src/Utils/Metadata/DlcStore.cpp:60-96 | The loop over the entries: stops at a missing header or a count over 10000, and takes a list that is cut short, zero-filled, as the last |
| DlcStores.DlcStore.RegisterDlcs | src/Utils/Metadata/DlcStore.cpp:134-153 | Appends the new ids that are no redistributables to the base's list, makes them known, and saves |
| DlcStores.DlcStore.SaveCache | src/Utils/Metadata/DlcStore.cpp:160-178 | The file becomes the serialization of all lists in some order |
| DlcStores.DlcStore.GetDlcsForBases | src/Utils/Metadata/DlcStore.cpp:118-132 | The ids of the requested bases in ascending order of base, each once |
| DlcStores.DlcStore.IsKnownDlc | src/Utils/Metadata/DlcStore.cpp:105-111 | In every sound state: whether some list holds the non-zero id and it is no redistributable |
| DlcStores.MergedIsUnion | src/Utils/Metadata/DlcStore.cpp:141-149 | Registering keeps the list as a prefix, adds exactly the wanted ids, and introduces no duplicate |
| DlcStores.QueryIsUnion | src/Utils/Metadata/DlcStore.cpp:118-132 | A query returns exactly the union of the requested lists, no id twice |
| DlcRuns.AscendingIsSorted | src/Utils/Metadata/DlcStore.cpp:118-132 | The bases of a query are walked in ascending order |
| DlcCache.LoadAgreesIff | src/Utils/Metadata/DlcStore.cpp:73-96 | A fresh load knows exactly the listed ids without the redistributables if and only if no replaced list takes an id with it |
| DlcCache.TwiceListedReads | src/Utils/Metadata/DlcStore.cpp:73-96 | The bytes of a cache file that lists one base twice load as these two lists |
| DlcCache.ReplacedListLeavesItsIds | src/Utils/Metadata/DlcStore.cpp:87-95 | After loading that file a known id is in no list |
| DlcCache.SaveThenLoadIff | src/Utils/Metadata/DlcStore.cpp:73-178 | Loading a saved file gives every list back if and only if each has at most 10000 ids |
| DlcCache.SavedStoreIsRestored | src/Utils/Metadata/DlcStore.cpp:73-178 | A store that agreed before saving is restored completely |
| DlcFormat.TrailingBytesAreIgnored | src/Utils/Metadata/DlcStore.cpp:73-96 | As many lists are read as the header counts, whatever follows them |
| DlcFormat.LongListEndsFile | src/Utils/Metadata/DlcStore.cpp:80-83 | A list of more than 10000 ids ends the file, whatever the header counts and whatever follows |
| DlcFormat.CutFileReads | src/Utils/Metadata/DlcStore.cpp:73-96 | A file cut off inside a list is read up to that list, which is lost if cut in its header and else has the missing bytes of its ids read as zeros |
| DlcFormat.ForeignFileIsIgnored | src/Utils/Metadata/DlcStore.cpp:60-71 | Nothing is read from a file that does not start with CDMO and version 1 |
| DlcStores.StepStaysSound | src/Utils/Metadata/DlcStore.cpp:44-178 | Each registration, restart and load keeps known ids and lists in agreement and the file loadable without loss |
| DlcStores.KnownIsUnionInEveryRun | src/Utils/Metadata/DlcStore.cpp:44-178 | In every run the known ids are at every moment exactly the union of the lists without the redistributables |
| DlcRuns.ListsHoldRegistered | src/Utils/Metadata/DlcStore.cpp:134-153 | Over every run of registrations each list begins with what it held and holds besides exactly the ids registered under its base, other than 0, that are none of 228980 to 228991 |
| DlcStores.RestartRestores | src/Utils/Metadata/DlcStore.cpp:134-178 | A restart after a registration brings lists and known ids back, if no list is over the limit |
| TextCodecs.HexToBytes | src/Platform/Common/Encoding.cpp:30-39 | Decodes pairs of characters; an odd last one is dropped and a non-digit counts as zero |
| TextCodecs.BytesToHex | src/Platform/Common/Encoding.cpp:41-50 | Prints two lower-case digits for each byte |
| TextCodecs.HexRoundTrip | src/Platform/Common/Encoding.cpp:30-50 | Decoding the printed bytes gives the bytes back |
| TextCodecs.HexTextRoundTrip | src/Platform/Common/Encoding.cpp:30-50 | Printing decoded hex text gives the text in lower case |
| TextCodecs.UrlEncode | src/Platform/Common/Encoding.cpp:52-66 | Keeps the unreserved characters of section 2.3 of RFC 3986 and percent-encodes every other byte |
| TextCodecs.UrlDecode | src/Platform/Common/Encoding.cpp:68-84 | Decodes percent triples and plus signs; an incomplete triple stands for itself |
| TextCodecs.PercentRoundTrip | src/Platform/Common/Encoding.cpp:52-84 | Decoding undoes encoding on every byte string |
| TextCodecs.EscapeJson | src/Platform/Common/Encoding.cpp:86-124 | Escapes quotes, backslashes and control characters, the rare ones in hexadecimal |
| TextCodecs.UnescapeJson | apps/manager/src/CloudSaveManager.cpp:166-206 | Undoes the short escapes; any other escaped character stands for itself |
| TextCodecs.JsonRoundTripIff | apps/manager/src/CloudSaveManager.cpp:166-206 | Unescaping undoes escaping if and only if every control character of the text has a short escape; otherwise the result is longer than the text |
| TextCodecs.EscapedIsStringBody | src/Platform/Common/Encoding.cpp:86-124 | Escaped text never holds a bare quote or a raw control character, so it may stand in a JSON string (section 7 of RFC 8259) |
| TextLaws.DecodedForms | src/Platform/Common/Encoding.cpp:68-84 | Behind any encoded text: a percent sign and two characters are one byte, a plus sign is a space, a percent sign with fewer than two characters behind it and any other character stand for themselves |
| TextLaws.EncodedForms | src/Platform/Common/Encoding.cpp:52-66 | Letters, digits, hyphen, period, underscore and tilde stand for themselves, every other byte is a percent sign and two upper-case hexadecimal digits |
| TextLaws.EscapedForms | src/Platform/Common/Encoding.cpp:86-124 | Quote and backslash get a backslash, five control characters a letter, all other control characters six characters in hexadecimal, and every other byte is kept |
| TextLaws.UnescapedForms | apps/manager/src/CloudSaveManager.cpp:166-206 | Behind any text with short escapes only: a backslash in front of a character without a short escape is dropped, and one at the end stands for itself |
| TextLaws.EscapedMeansOriginal | src/Platform/Common/Encoding.cpp:86-124 | Read as a JSON string (section 7 of RFC 8259), escaped text means the original bytes, whatever characters they are |

## Left out

- PersonaState.PatchPersonaStateBody: where it would read an entry beyond the body it only reports that; what the program then does with the bytes behind the body is not modelled.
- PersonaLaws.PatchTwice: stated, as PersonaLaws.PatchIsIdempotent is, for length-delimited friends entries only; what is read as an entry of another wire type depends on the bytes behind the field, which patching moves. Body and announcement together are below 4 GiB, because the length of an entry is cut to 32 bits.
- PersonaLimits.SelfPresent: the template it fills, with its two size limits, and the packet BuildRPInject makes of it are left out; a local id of zero, for which the scan is skipped, is an ordinary id of the patcher.
- Frames.UnpackRaw: a null buffer is not modelled, and neither is a null body or output argument elsewhere; a frame below 4 GiB is required since its size is a 32-bit argument. Where the 32-bit header offset wraps the model wraps too, but the laws about frames speak of headers that lie inside.
- LicenseDelta.CUtlVector.NativeGrow: is an assumption about the client's own routine, whose code is not part of this model.
- LicenseDelta.CUtlVector.GrowAndAppend: sizes are unbounded, so the overflow of 32-bit sizes near two billion ids is not modelled; the replaced memory block is not freed, as in the code.
- Delivery.TryDeliverQueue: the receiver only looks at the packet's bytes; a receiver that pushes to the queue or takes buffers while it is called is not modelled.
- PacketPool.ConsecutiveSlotsDiffer: counts the acquisitions that succeed, since a refused one does not move on.
- ManifestJobs.ManifestTables.HandleManifestResponse: waiting for a lookup is a parameter that says whether and with which code it finishes.
- ManifestLaws.NoRetryWithinTtl: speaks of lookups one after the other; lookups running at the same time may ask providers twice.
- ManifestDisk.ReplayIsMemory: assumes that writes succeed and are not interrupted, and a file that is absent, empty or well-formed to begin with.
- ManifestLaws.ProvidersInOrder: what a provider answers is a parameter; an answer is never zero, which is what the response parsers ensure.
- PicsTokens.PatchProductInfoRequest: the configured token is an arbitrary function of the app id; parsing its text is left out.
- ConfigRuns.RunsKeepInvariant: a script run is any sequence of record writes; the Lua interpreter and the directory walk are left out, and so is parsing straight into the active slot, which belongs to startup.
- DepotStore.DepotKeyStore.ImportKeysFromConfig: takes the keys that the two regular expressions find as a list.
- DepotKeyTool.PackKeysToBin: ids are 32-bit numbers; for others the original raises an error while writing. Key texts are code points.
- DlcStores.DlcStore.Initialize: a cache file that cannot be opened counts as absent, and reads fail only at the end of the file.
- DlcStores.KnownIsUnionInEveryRun: speaks of runs in which no list and no number of lists reaches 2^32, because the file counts in 32 bits.
- DlcStores.DlcStore.SaveCache: file writes succeed; the temporary file and its renaming are left out.
- Locks are modelled only where interleaving matters, in the configuration store; every other store is modelled with its operations one after the other.
- The reload of injected licenses reads the desired sets outside its lock; which of two racing reloads wins is not modelled.
- The statistics replay cache, whose memory keeps the last value while its file keeps the first.
- ParseManifestRequest and the rich-presence readers: further loops of the kind of ParseProtoHeader and GetScalarField.
- Hooks, process injection, symbol tables, tickets, HTTP, WebDAV, the web dashboard, the command line, the installer and file system effects.
