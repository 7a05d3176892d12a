# AaltoMME: a verified model of the protocol core

AaltoMME is a Mobility Management Entity for LTE networks. This project models the parts of it that
are hard to get right by inspection, and proves properties of them for all inputs and all runs:

- **128-EIA2 over a hand-written streaming CMAC** (`Bits`, `OctetNumbers`, `Cmac`, `CmacStream`,
  `CmacContext`, `CmacAlignment`, `CmacIdentity`, `CmacUpdates`). The context is a class with the buffers of the source. AES is an
  arbitrary function of key and block, so every correctness statement holds whatever AES computes; that a misaligned
  second Update goes wrong is proved of every injective one. The reference is the one-shot CMAC of section 2.4 of RFC 4493 and section 6.2 of NIST SP 800-38B, over bit strings.
- **The NAS security context** (`NasSecurity`, `NasAuth`, `NasRuns`, `NasPipeline`): COUNT window and
  reconstruction (section 4.4.3 of 3GPP TS 24.301), protect, authenticate, unprotect, and what whole
  runs of one or two handlers guarantee, for any MAC.
- **The NAS message codec** (`Octets`, `NasIe`, `NasDecoder`, `NasSchemas`, `NasMessages`, `NasDefined`): one decoder over
  an arbitrary list of optional elements, the Attach Request, Tracking Area Update Request and PDN Connectivity
  Request as instances of it, the writers, the lookup of optionals, and all three against the message definitions
  of the standard.
- **The GTPv2-C information element codec** (`GtpIe`, `GtpPacket`, `GtpRuns`): reading, searching,
  writing, the running length field, and groups nested to any depth (section 8.2 of 3GPP TS 29.274).
- **The retransmission timer manager** (`TimerManager`, `TimerRuns`, `TimerReuse`): callbacks are arbitrary
  finite trees of actions that start and stop timers, the firing one included; and what happens when a freed timer's
  address is used again.
- **Two small algorithms** (`Apn`, `UeIds`): the in-place APN encoder and the UE identifier allocator.

`Common` and `OctetBytes` hold a few definitions they share.

Where the source changes things in place, the model does too: arrays, classes and loops, each method
proved against a function on values, about which the properties are then proved. Foreign calls (AES,
the key derivation) are function parameters.

Properties that are false of the code as written are stated with the exact condition under which they
hold: `CmacAlignment.AlignmentIsExact`, `CmacUpdates.UpdatesAreExact`, `CmacAlignment.CopyRoomIsExact`,
`NasRuns.FreshExactlyBelowLimit`, `NasRuns.GapIsExact`, `NasRuns.SendCountsFreshExactly`, `NasRuns.BodyLengthIsExact`,
`NasMessages.AttachLookup`, `NasMessages.DeclaredSlotsAreShort`, `NasMessages.TvT1Recognised`,
`GtpIe.TerminatorIsExact`, `GtpRuns.TreeTravels`, `GtpRuns.TlivRoomIsExact`, `GtpRuns.SecondEncapsIsExact`,
`GtpPacket.LengthFieldIsExact`, `TimerRuns.LimitIsExact`, `TimerReuse.ReuseIsExact`, `Apn.LoopEndsExactly`. Inputs
on which they fail are in `CmacAlignment.MisalignedIsWrong`, `CmacUpdates.MisalignedListIsWrong`,
`NasRuns.SameMessageTwice`, `NasRuns.UplinkRunStops`, `NasMessages.FullAttachOverflows`,
`NasMessages.FullTauOverflows`, `GtpIe.TerminatorOutside`, `GtpRuns.TlivOverruns`, `GtpRuns.SecondEncapsOutside`,
`GtpPacket.LengthFieldWraps` and `TimerReuse.ReplacementIsStopped`.

Some proofs hide a recursive function behind a predicate that quantifies over its argument
(`GtpIe.ParsesBack`, `Apn.WalksBack`), or bundle a loop's state in a predicate with lemmas for its start,
step and end. This only keeps the solver's work small.

## Where code and documentation differ

The model follows the code.

- Update of the CMAC context takes a length in bits but places the rest of a partial block at the octet
  numbered like that bit (NAS/src/eia2.c:152). A second Update is right exactly after whole blocks.
- `newNASMsg_sec` always moves the downlink counter, whatever direction it is given (NAS/src/NAS.c:456-513).
- `dec_secNAS` decodes security header types 1, 2, 4 and 12, not 3, which `newNASMsg_sec` produces.
- The protocol discriminator test at the start of `dec_NAS` is true of every value, so it rejects nothing.
- `nasIe_tv_t1` puts the tag into the low half of the octet; the decoder expects it in the high half.
- `gtp2ie_tliv` tests the room for five octets of value, whatever the size of the value.
- `get_default_gtp` treats version 0 like version 2.
- `nas_setSecurity` documents that arguments may be missing; the code reads them all.

## Model

| member | source | states |
|---|---|---|
| `CmacContext.MakeKn` | NAS/src/eia2.c:52-61 | the octet-wise shift with carry doubles the bit string in the binary field of the block size, and touches nothing behind the block |
| `CmacContext.ShiftIsDouble` | NAS/src/eia2.c:52-61 | any octets with these carries are, as bits, the doubled element, constants 0x87 and 0x1b included |
| `Cmac.DoubleAsNumber` | NAS/src/eia2.c:52-61 | doubling as numbers, for every block size: 2 L if that has no more bits, otherwise 2 L without the top bit xored with 0x87 for 128 bits and 0x1b for others |
| `Cmac.SubkeyNumbers` | NAS/src/eia2.c:120-124 | K1 denotes L times x and K2 denotes L times x twice, as numbers, where L encrypts the zero block |
| `Cmac.MacIsCmac` | NAS/src/eia2.c:186-206 | the reference itself, for every block function and every bit string: chain all blocks but the last from zero, xor the last with the block that denotes L times x if it is complete, pad it and xor L times x twice if not, encrypt |
| `Cmac.DoubleInjective` | NAS/src/eia2.c:120-124 | doubling loses nothing: equal results come from equal blocks |
| `CmacContext.CmacCtx.constructor` | NAS/src/eia2.c:63-72 | a new context is marked as not initialised and shares no buffer |
| `CmacContext.CmacCtx.DeriveSubkeys` | NAS/src/eia2.c:116-128 | k1 holds the encrypted zero block times x and k2 holds k1 times x, as numbers |
| `CmacContext.CmacCtx.Init` | NAS/src/eia2.c:93-134 | every combination of key, key length and cipher: when it succeeds, that a key or a restart leaves the state of the empty message, that a cipher alone loses the key, and what stays unchanged otherwise |
| `CmacContext.CmacCtx.AbsorbRest` | NAS/src/eia2.c:164-174 | the block loop leaves exactly the reference state: all blocks but the last chained, the last buffered |
| `CmacContext.CmacCtx.Update` | NAS/src/eia2.c:136-174 | the new chaining value, buffer and bit count are those of the value-level Update; fails exactly on an uninitialised context |
| `CmacContext.CmacCtx.PadLast` | NAS/src/eia2.c:190-204 | the masked octet and the zeros after it are the padded block |
| `CmacContext.CmacCtx.Final` | NAS/src/eia2.c:176-210 | output of the value-level Final; refused on an uninitialised context; the context can be restarted after it |
| `CmacContext.MacTwice` | NAS/src/eia2.c:97-107 | after Final and a restart the context computes the one-shot MAC again, of any other message |
| `CmacStream.PadBufferIsPad` | NAS/src/eia2.c:197-204 | octet-level padding is the bit-level `10*` padding for every bit count below 128 |
| `CmacStream.FinalIsMac` | NAS/src/eia2.c:176-210 | Final of a state that stands for m is the one-shot MAC of m |
| `CmacStream.UpdateHolds` | NAS/src/eia2.c:136-174 | Update after whole blocks makes the state stand for the longer message, for every bit length |
| `CmacStream.StreamingIsOneShot` | NAS/src/eia2.c:93-210 | any number of Updates of whole blocks, one of any bit length, then Final: the one-shot CMAC of the concatenation, for every block function and every initial buffer content |
| `CmacAlignment.AlignmentIsExact` | NAS/src/eia2.c:146-163 | for every injective block function, every message of the first Update and every second chunk whose copy stays inside the buffer: the result is the CMAC whatever lies behind the message in its octets and in the fresh buffer if and only if the message is a whole number of blocks or the second chunk is empty |
| `CmacAlignment.MisalignedIsWrong` | NAS/src/eia2.c:152 | for every injective block function, every message that ends inside a block and every second chunk that is not empty, octets that carry the message and a fresh buffer on which the result is wrong |
| `CmacAlignment.StaleBitShown` | NAS/src/eia2.c:146-163 | states that agree but for the bit after the buffered ones, which is no message bit, give different results after every further Update with data, under every injective block function |
| `CmacUpdates.UpdatesAreExact` | NAS/src/eia2.c:136-174 | of any list of Updates all copies stay inside the buffer and the result is the CMAC for every cipher and all data, if and only if every Update that brings data starts on a block boundary |
| `CmacUpdates.MisalignedListIsWrong` | NAS/src/eia2.c:152 | under the identity cipher, for every list with a misaligned Update, a concrete message on which the result is wrong |
| `CmacUpdates.Updated` | NAS/src/eia2.c:146-172 | the bits buffered after any list of Updates follow from their total length |
| `CmacAlignment.CopyRoomIsExact` | NAS/src/eia2.c:146-154 | the copy of the next Update stays inside the 32-octet buffer whatever its length if and only if at most 18 bits or a whole block are buffered |
| `CmacContext.Eia2` | NAS/src/eia2.c:212-243 | the digest is the first 32 bits of the CMAC of every bit string made of 32 bits of COUNT, five of BEARER, DIRECTION, 26 zero bits and the first mLen bits of the message |
| `CmacContext.Eia2IsExact` | NAS/src/eia2.c:225-241 | only one bit string is made of these parts, and its CMAC is the one computed |
| `CmacContext.BuildInput` | NAS/src/eia2.c:225-231 | the octets assembled are, as bits, that header followed by the message bits |
| `CmacContext.DigestIgnoresTrailingBits` | NAS/src/eia2.c:212-243 | buffers that agree on the first mLen bits have equal digests, also when mLen ends inside an octet |
| `NasPipeline.ComputeMac` | NAS/src/NAS.c:479-501 | the MAC is the first four octets of the CMAC under the key of the bit string whose first 32 bits denote COUNT, then five zero bits, one set on the downlink, 26 zero bits, and the message octet by octet |
| `NasSecurity.NasHandler.constructor` | NAS/src/NAS.c:529-533 | a new handler has no security context |
| `NasSecurity.NasHandler.SetSecurity` | NAS/src/NAS.c:542-557 | algorithms, both derived keys, both counters zero, context valid, for any algorithm numbers |
| `NasSecurity.NasHandler.IncrementCount` | NAS/src/NAS.c:46-64 | only this direction's counter moves, in 32 bits; when it warns |
| `NasSecurity.NasHandler.SetCount` | NAS/src/NAS.c:75-129 | the counter becomes the rebuilt COUNT plus one, long and short form |
| `NasSecurity.NasHandler.Protect` | NAS/src/NAS.c:456-513 | the octets written, the counter moved, and that a refused call changes neither handler nor output |
| `NasAuth.ProtectedIsExact` | NAS/src/NAS.c:479-508 | every octet of a protected message of at most 254 octets: header types and discriminator, the MAC under the integrity key and the COUNT of the direction or zeros for EIA0, the COUNT octet, the message |
| `NasSecurity.NasHandler.Authenticate` | NAS/src/NAS.c:578-645 | return code, verdict and new state on every path: no context, other header types, outside the window, wrong MAC, accepted |
| `NasAuth.LongIsExact` | NAS/src/NAS.c:595-620 | types 1 to 4, every context and message: with a COUNT of this sequence number among the ten expected ones of the block of 256, authenticated if and only if octets 1 to 4 are the MAC of the octets from 5 on under that COUNT, or EIA0; with none, 2 and nothing changes |
| `NasAuth.ShortIsExact` | NAS/src/NAS.c:621-641 | the same for a service request: blocks of 32, and octets 2 and 3 against the last two octets of the MAC of octets 0 and 1 |
| `NasAuth.ServiceRequestIsExact` | NAS/src/NAS.c:621-641 | a genuine service request g COUNTs ahead is accepted and moves the counter just past its COUNT if and only if g is below 10 and both counts are in one block of 32; up to a gap of 31 it otherwise returns 2 and nothing changes |
| `NasAuth.OthersAreRefused` | NAS/src/NAS.c:587-594 | 0 is returned, and nothing changes, if and only if there is no context or the header type is none of 1 to 4 and 12 |
| `NasRuns.WindowIsExact` | NAS/src/NAS.c:137-155 | the unsigned comparison accepts a sequence number exactly when the rebuilt COUNT is one of the ten from the expected one on, long and short form |
| `NasRuns.AcceptStep` | NAS/src/NAS.c:578-645 | an accepted message uses a COUNT in the window and leaves the counter just past it; any other call changes nothing |
| `NasRuns.AcceptedCountsIncrease` | NAS/src/NAS.c:578-645 | over every run of receives in both directions and sends, while the counter of a direction is below 2^24, its accepted COUNTs strictly increase and lie between the counters before and after |
| `NasRuns.FreshExactlyBelowLimit` | NAS/src/NAS.c:75-97 | an accepted COUNT is a new one if and only if the counter was below 2^24 |
| `NasRuns.ReplayAccepted` | NAS/src/NAS.c:602-620 | from 2^24 on a receiver accepts messages of earlier COUNTs again, whatever the MAC, and its counter falls back |
| `NasRuns.SameMessageTwice` | NAS/src/NAS.c:75-97 | the same octets are authenticated by a receiver in step and again once its counter has reached 2^24 |
| `NasRuns.StayInStep` | NAS/src/NAS.c:456-513 | two handlers in step stay in step and authenticate every message of any in-order run, whatever the MAC |
| `NasRuns.GapIsExact` | NAS/src/NAS.c:602-620 | after g lost messages the next is accepted and resynchronises if and only if g is below 10 and both counts are in one block of 256; otherwise it returns 2 and nothing changes |
| `NasRuns.LossyRunIsExact` | NAS/src/NAS.c:578-645 | a whole lossy run is authenticated throughout if and only if every gap is tolerated where it occurs |
| `NasRuns.DesyncIsPermanent` | NAS/src/NAS.c:602-620 | a receiver left behind in an earlier block of 256 authenticates no later message, in any order, if the MAC tells COUNTs apart |
| `NasRuns.SendCountsFreshExactly` | NAS/src/NAS.c:480-511 | up to 2^32 sends use distinct COUNTs if and only if they are downlink or at most one |
| `NasRuns.UplinkRunStops` | NAS/src/NAS.c:480-511 | between handlers with equal uplink counters an in-order run of uplink messages is accepted once and refused with 2 from the second message on, whatever the MAC |
| `NasRuns.BodyLengthIsExact` | NAS/src/StandardIeSchemas.c:50-56 | a protected message is delivered whatever the MAC if and only if the plain message has at most 254 octets |
| `NasPipeline.UnprotectIsExact` | NAS/src/NAS.c:647-683 | unprotecting a protected message of at most 254 octets gives what dec_NAS finds in the plain octets, for types 1, 2 and 4 whose ciphering algorithm has a table entry; type 3 is refused |
| `NasPipeline.UnprotectOthers` | NAS/src/NAS.c:647-683 | on any octets and any context: type 1 is decoded even without a context, types 2, 4 and 12 only with one, all others are refused |
| `NasPipeline.ProtectedAttachArrives` | NAS/src/NAS.c:396-683 | end to end, in either direction, with algorithms that have a table entry: build, protect, authenticate under 128-EIA2, unprotect and decode an Attach Request gives back its fields and optionals and moves the receiver just past the COUNT |
| `NasPipeline.AfterArrival` | NAS/src/NAS.c:509-511 | sender and receiver are in step afterwards if and only if the direction was downlink |
| `NasIe.VT1Pair` | NAS/src/StandardIeSchemas.c:30-37 | the two nibble writers fill one octet whatever was there |
| `NasIe.TvT1` | NAS/src/StandardIeSchemas.c:39-43 | one octet, tag in the low half |
| `NasIe.VT3` | NAS/src/StandardIeSchemas.c:50-56 | stores the value up to its length modulo 256 and nothing else |
| `NasIe.TvT3` | NAS/src/StandardIeSchemas.c:58-68 | stores tag and value and nothing else |
| `NasIe.LvT4` | NAS/src/StandardIeSchemas.c:70-80 | stores length and value and nothing else |
| `NasIe.TlvT4` | NAS/src/StandardIeSchemas.c:82-94 | stores tag, length and value and nothing else |
| `NasIe.LvT6` | NAS/src/StandardIeSchemas.c:96-105 | stores the length in network order and the value and nothing else |
| `NasDecoder.DecTlv` | NAS/src/NASMessages.c:611-626 | cursor, size, index and slots after the call, on a hit and on a miss |
| `NasDecoder.DecTv3` | NAS/src/NASMessages.c:628-641 | the same for a fixed length |
| `NasDecoder.DecTv1` | NAS/src/NASMessages.c:643-656 | the same for half-octet tags, the value masked |
| `NasDecoder.DecodeOptionals` | NAS/src/NASMessages.c:192-227 | a whole call sequence: cursor plus size stays the end, the slots filled are those of the reference, the others untouched |
| `NasDecoder.DecodesLongestPrefix` | NAS/src/NASMessages.c:611-656 | for any schema and any stream of elements in the expected formats, exactly the longest prefix that is a subsequence of the schema is consumed and stored in order |
| `NasDecoder.Lookup` | NAS/src/NAS.c:709-733 | the first matching slot before the first empty one |
| `NasDecoder.SearchIsFirst` | NAS/src/NAS.c:709-733 | on any slots, the one found is the first that has the tag, half an octet compared for tags 8 to 15, with no empty slot before it |
| `NasDecoder.LookupFinds` | NAS/src/NAS.c:709-733 | after decoding, the lookup of a tag finds the element of that tag if it was encoded and its slot is searched, and nothing otherwise |
| `NasDecoder.LookupAny` | NAS/src/NAS.c:709-733 | after decoding, the lookup of any octet, tag or not, finds the first element in the searched slots that answers to it, and nothing only if none does |
| `NasDecoder.LookupIsExact` | NAS/src/NAS.c:709-733 | every encoded element is found if and only if there are no more of them than slots searched |
| `NasDecoder.SlotsAreExact` | NAS/src/NASMessages.c:192-345 | every stream a call sequence takes whole has room in n slots if and only if there are at most n calls |
| `NasSchemas.SchemasDistinguishable` | NAS/src/NASMessages.c:192-345 | no octet is recognised by two calls of the Attach, Tracking Area Update or PDN Connectivity sequence |
| `NasSchemas.AttachImplements` | NAS/src/NASMessages.c:192-227 | every optional element of the Attach Request in TS 24.301 has its call, at its place, with its format, length and value mask |
| `NasSchemas.TauImplements` | NAS/src/NASMessages.c:296-345 | the same for the Tracking Area Update Request |
| `NasDefined.DefinitionDecodes` | NAS/src/NASMessages.c:611-656 | a call sequence that implements a definition decodes every in-order stream of elements the definition allows, whole, and stores the octets the definition gives |
| `NasDefined.AttachDecodes` | NAS/src/NASMessages.c:148-228 | every Attach Request put together octet by octet from its definition in TS 24.301 is decoded by dec_NAS to its fields and elements, with the 18 calls of the source |
| `NasDefined.TauDecodes` | NAS/src/NASMessages.c:275-346 | the same for the Tracking Area Update Request and its 24 calls |
| `NasDefined.PdnDecodes` | NAS/src/NASMessages.c:470-493 | the same for the PDN Connectivity Request and its 4 calls, transaction identity included |
| `NasDefined.OthersAreKept` | NAS/src/NAS.c:396-430 | what dec_NAS makes of no octets, of protected headers, and of every other EMM and ESM message |
| `NasMessages.AttachRequest.Decode` | NAS/src/NASMessages.c:148-228 | the fields and slots filled in place are those of the reference decoder, on any structure with slots for the optionals the message carries |
| `NasMessages.TauRequest.Decode` | NAS/src/NASMessages.c:275-346 | the same for the Tracking Area Update Request |
| `NasMessages.OptionalsRoundTrip` | NAS/src/NASMessages.c:192-227 | any in-order choice of elements of a distinguishable schema is decoded whole, each by its own call |
| `NasMessages.BuildAttach` | NAS/src/StandardIeSchemas.c:30-105 | the writer calls produce exactly the octets of the message |
| `NasMessages.AttachRoundTrip` | NAS/src/NASMessages.c:148-228 | decoding a built Attach Request through dec_NAS gives back every field and optional, type 1 values masked |
| `NasMessages.TauRoundTrip` | NAS/src/NASMessages.c:275-346 | the same for the Tracking Area Update Request |
| `NasMessages.PdnRoundTrip` | NAS/src/NASMessages.c:470-493 | the same for the PDN Connectivity Request behind its ESM header, for every transaction identity |
| `NasMessages.SourceRoundTrips` | NAS/src/NASMessages.c:148-346 | both round trips with the 18 and 24 calls of the source |
| `NasMessages.AttachLookup` | NAS/src/NAS.c:709-733 | in the 17 slots declared every encoded optional is found if and only if at most 17 were encoded |
| `NasMessages.TauLookup` | NAS/src/NAS.c:709-733 | in the 22 slots declared every encoded optional is found if and only if at most 22 were encoded |
| `NasMessages.DeclaredSlotsAreShort` | NAS/shared/NASMessages.h:159-239 | n slots are enough for every Attach Request if and only if n is at least 18, and for every Tracking Area Update Request if and only if at least 24; 17 and 22 are declared |
| `NasMessages.FullAttachOverflows` | NAS/shared/NASMessages.h:159 | a message with 18 optionals that do not fit the 17 slots, and of which one is not found in them |
| `NasMessages.FullTauOverflows` | NAS/shared/NASMessages.h:239 | a message with 24 optionals that do not fit the 22 slots, and of which one is not found in them |
| `NasMessages.TvT1Recognised` | NAS/src/StandardIeSchemas.c:39-43 | the decoder recognises what nasIe_tv_t1 wrote if and only if tag and value are equal |
| `GtpIe.ParseIsExact` | libgtp/gtpie.c:125-214 | the reference parser succeeds exactly on concatenations of at most max elements, with exactly those elements |
| `GtpIe.Decap` | libgtp/gtpie.c:125-169 | on any array of GTPIE_SIZE slots or more that has a slot for the terminator: returns 0 if and only if the payload behind the 8 or 12 octet header is such a concatenation of at most GTPIE_SIZE elements, and then the pointers tile it without gap or overlap |
| `GtpIe.DecapsGroup` | libgtp/gtpie.c:172-214 | the same for the value of a group |
| `GtpIe.HeaderSizeIsExact` | libgtp/gtpie.c:133-138 | which flag octets announce the 8 octet header: 0x40 to 0x47 and 0x50 to 0x57 |
| `GtpIe.WalkLoop` | libgtp/gtpie.c:140-158 | the loop of both lands on the end exactly when the octets parse, and the slot the terminator then gets is the number of elements |
| `GtpIe.TerminatorIsExact` | libgtp/gtpie.c:157-201 | on the GTPIE_SIZE slots the callers declare the terminator stays inside if and only if the payload is not exactly GTPIE_SIZE elements |
| `GtpIe.TerminatorOutside` | libgtp/gtpie.c:157-201 | GTPIE_SIZE empty elements, which parse and put the terminator outside |
| `GtpIe.GetIe` | libgtp/gtpie.c:64-77 | the index of the first element of this type and instance, -1 if there is none |
| `GtpIe.GetTliv` | libgtp/gtpie.c:111-123 | the value of that element, or failure |
| `GtpIe.FirstMatchInRange` | libgtp/gtpie.c:64-77 | the index found matches, no earlier one does, and none is found only if none matches |
| `GtpPacket.DefaultHeader` | libgtp/gtp.c:120-166 | every octet of the header by version and type, and that it is an empty well-formed packet |
| `GtpPacket.Tliv` | libgtp/gtpie.c:91-109 | appends exactly the element and moves the length field, or refuses and changes nothing |
| `GtpPacket.Encaps` | libgtp/gtpie.c:216-241 | appends the elements in order while they fit, each with the length field, and returns 0 exactly when all did |
| `GtpPacket.ClearedOctets` | libgtp/gtpie.c:224-226 | the memset zeroes 65535 octets behind the packet and no other |
| `GtpPacket.EncapsGroup` | libgtp/gtpie.c:244-270 | the group element holds exactly the elements that fit, with its own length right |
| `GtpPacket.FittingIsLongest` | libgtp/gtpie.c:225-239 | the elements that fit are the longest prefix whose encoding is shorter than the room |
| `GtpPacket.AppendedAllHolds` | libgtp/gtpie.c:216-241 | out of space leaves a well-formed packet holding exactly the elements before the first that did not fit |
| `GtpPacket.LengthFieldIsExact` | libgtp/gtpie.c:91-109 | packet length equals length field plus 4 if and only if it is below 65540 |
| `GtpPacket.LengthFieldWraps` | libgtp/gtpie.c:91-109 | one element of 65535 octets behind a long header: a packet of 65551 octets whose length field says 11 |
| `GtpRuns.RunHolds` | libgtp/gtpie.c:91-241 | after any run of tliv and encaps calls the packet holds exactly the elements added, in order, and the length field agrees modulo 2^16 |
| `GtpRuns.RunRoundTrip` | libgtp/gtpie.c:91-241 | from a new header, decap reads back exactly the elements of any run |
| `GtpRuns.TlivRoomIsExact` | libgtp/gtpie.c:91-109 | on any packet the room test protects the buffer size if and only if the value has at most five octets |
| `GtpRuns.TlivOverruns` | libgtp/gtpie.c:91-109 | with nine octets of room every value of six octets or more passes the test and is written beyond the buffer |
| `GtpRuns.SecondEncapsIsExact` | libgtp/gtpie.c:224-226 | on the declared packet of 65547 octets, after any run from a long header the memset of another encaps stays inside if and only if nothing was written yet |
| `GtpRuns.SecondEncapsOutside` | libgtp/gtpie.c:224-226 | a first encaps of one element on the declared packet, after which the memset of a second leaves it |
| `GtpRuns.BuildIsExact` | libgtp/gtpie.c:244-270 | building a tree with encaps_group from the innermost groups outwards succeeds if and only if every group value is shorter than GTPIE_MAX, and then gives the elements of the tree |
| `GtpRuns.ReadIsExact` | libgtp/gtpie.c:125-214 | with pointer arrays of any size, reading an encoded tree level by level gives it back if and only if every sibling list has at most GTPIE_SIZE elements and leaves a slot for the terminator |
| `GtpRuns.TreeTravels` | libgtp/gtpie.c:125-270 | groups built with encaps_group, sent with encaps, read with decap and decaps_group into arrays of any size: sending succeeds if and only if the encoded tree is shorter than GTPIE_MAX, and then the tree comes back if and only if every sibling list has at most GTPIE_SIZE elements and leaves a slot for the terminator, which on the declared arrays is at most 255 |
| `TimerManager.TimerMgr.constructor` | Common/timermgr.c:109-122 | no timer, nothing armed |
| `TimerManager.TimerMgr.AddTimer` | Common/timermgr.c:130-165 | starts a timer, armed and at count zero, if and only if there are a non-zero time, a callback and at least one retransmission; otherwise nothing changes |
| `TimerManager.TimerMgr.StopTimer` | Common/timermgr.c:167-188 | event disarmed, timer removed, then cb_free and all it does |
| `TimerManager.TimerMgr.TimerCb` | Common/timermgr.c:75-107 | count, callback, and whether the timer is stopped after a callback that may have stopped it |
| `TimerManager.ActsGood` | Common/timermgr.c:58-62 | whatever a callback does, nested free callbacks included, keeps every guarantee of every timer |
| `TimerManager.FireGood` | Common/timermgr.c:75-107 | an expiry keeps them too, and calls exactly one of cb_to and cb_maxTo, of the timer that expired |
| `TimerRuns.EveryRunGood` | Common/timermgr.c:58-188 | over every run: cb_to at most max_rtx times, cb_maxTo at most once and after exactly max_rtx, cb_free exactly once on removal if given, nothing after removal, armed exactly while in the table, and a bounded number of expiries |
| `TimerRuns.ExpiryNeverFails` | Common/timermgr.c:84-106 | a missing cb_maxTo is never called |
| `TimerRuns.RunsOut` | Common/timermgr.c:75-107 | left to expire, a live timer calls every callback as often as promised and is gone after exactly its budget of expiries |
| `TimerRuns.LimitIsExact` | Common/timermgr.c:83-84 | cb_to stays within max_rtx in every run unless cb_maxTo is given and max_rtx is 2^32-1, where the counter wraps first |
| `TimerReuse.ReuseIsExact` | Common/timermgr.c:75-107 | in every run, with timers at any addresses: an expiry stops a timer other than the one that expired if and only if it is the last one, its callback stopped its own timer, and a timer started in it lives at the freed address; otherwise the look-up by address is right |
| `TimerReuse.ReplacementIsStopped` | Common/timermgr.c:93-106 | a callback that replaces its timer at the same address in its last expiry: the replacement is released before it ever expires |
| `Apn.GetEncodedApn` | mme/Subscription.c:164-185 | the buffer after the in-place encoding: labels behind their lengths for the first maxLen octets, the rest of the name, and what was behind it |
| `Apn.EncodeApn` | TestProgram/check_nas.c:61-80 | the copying encoder writes the same octets |
| `Apn.RoundTrip` | mme/Subscription.c:164-185 | reading the labels and joining them with dots gives the name back, empty labels included, and the size is one more |
| `Apn.EncodedOctets` | mme/Subscription.c:174-182 | the encoding octet by octet: where a label starts in the name its length stands, and its octets follow one place later than in the name |
| `Apn.SplitJoined` | mme/Subscription.c:174-182 | the labels are the only dot-free ones with that dotted form |
| `Apn.MarkAll` | mme/Subscription.c:174-181 | the index, the label length and the buffer after the loop are those of as many rounds on uint8 variables, and the labels so far are in place |
| `Apn.LoopEndsExactly` | mme/Subscription.c:167-181 | whatever the memory holds, some round finds the loop guard false if and only if there are at most 255 octets to go over |
| `UeIds.Mme.NewLocalUeId` | mme/MME.c:246-259 | the least free identifier, marked as used, or 0 |
| `UeIds.Mme.FreeLocalUeId` | mme/MME.c:261-265 | exactly this identifier is free afterwards |
| `UeIds.LeastFree` | mme/MME.c:246-259 | least among those not in use; 0 exactly when all up to MAX_UE are |
| `UeIds.EveryRunGrants` | mme/MME.c:246-265 | in every run the next identifier is not in use, exceeds the number in use by at most one, and is 0 exactly when MAX_UE are in use |
| `UeIds.ReleasedBetween` | mme/MME.c:246-265 | no identifier is handed out twice unless it was released in between |

## Left out

- CmacUpdates.MisalignedListIsWrong: the wrong result is exhibited under one block function, the identity. For two Updates `CmacAlignment.MisalignedIsWrong` covers every injective one; for longer lists, where the same stale bit can enter several blocks, that is not claimed.
- S1AP encoding and decoding: rests on a PER runtime that is not part of this model; the list handling around it would only add easy members.
- Telephony digits and MCC/MNC conversion: small finite domains.
- AES, HMAC-SHA256 and the key derivation: arbitrary functions here.
- OpenSSL failures: `EVP_EncryptInit_ex` and `EVP_Cipher` always succeed in the model, so their error returns in NAS_CMAC_Init and NAS_CMAC_Update are not modelled.
- CmacContext.CmacCtx.Update: a copy that would leave the 32-octet buffer, possible because line 152 uses a bit count as an octet offset, is excluded by `CopyFits`; what it overwrites depends on the memory behind the buffer. `CmacAlignment.CopyRoomIsExact` says when that can happen.
- NasSecurity.NasHandler.Protect: a MAC or ciphering algorithm whose table entry is null is excluded where it would be called; only EIA0, EIA2 and EEA0 have entries. The same holds of NasSecurity.NasHandler.Authenticate.
- CmacContext.CmacCtx.Final: a context whose key was lost to a later cipher is excluded, as in CmacContext.CmacCtx.Update; what OpenSSL computes then is not part of this model.
- Messages other than the three requests: `dec_EMM` and `dec_ESM` keep their octets undecoded.
- PDN Connectivity Request: decoded on values only, so filling its structure in place is not captured.
- NasMessages.AttachRequest.Decode: a message with more optionals than the structure has slots is excluded, as it is stored beyond the structure; `NasMessages.DeclaredSlotsAreShort` says when that can happen. The same holds of NasMessages.TauRequest.Decode.
- GtpIe.Decap: a payload whose terminator has no slot is excluded (`GtpIe.TerminatorIsExact`), and two readable octets behind the packet are asked for, since a length is read before its place is checked.
- GtpPacket.Encaps: asks for GTPIE_MAX octets behind the packet, which its memset clears; `GtpRuns.SecondEncapsIsExact` says when the declared packet has them.
- Reads beyond a truncated NAS message: the value-level decoders return None there; the methods exclude them.
- `free_timerMgr`: destroys the table while events stay armed.
- Failure of `event_new` and `evtimer_del`: libevent always succeeds in the model.
- `mme_containsSupportedTAs`: a nested search over lists that would only add an easy member.
- Logging, sockets, configuration, the command shell and the controller messages.
