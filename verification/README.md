# In-vehicle SDK: protocol models and proofs

Dafny models of the parts of the in-vehicle SDK that decide something: the UDS
client's exchange loop and what is built on it, the splitting of unframed
ReadDataByIdentifier replies, the radiotap header parser, the 802.11 frame
grammar with everything computed from its parses, and CAN sniffing.

`dafny verify dfyconfig.toml` checks the whole project.

## How the code is modelled

**UDS.** The link is an arbitrary trace: which replies come in which order, how
long each send and receive takes, how much time passes before each reading of
the clock, and how many bytes of each frame the link accepts. `UdsExchange` says
what the exchange loop does on a trace, `UdsClient` holds the client as a class
whose methods run the loops against a data link object, and `UdsExchangeLaws`,
`UdsTiming` and `UdsSession` prove what holds on every trace. Request builders
and response interpreters of udsoncan are parameters.

**DID splitting.** `DidSplit` models the loop over the requested identifiers and
proves that the greedy leftmost choice never loses, that no byte is lost, and
exactly when the answer can be trusted and when it inverts the server's framing.

**Radiotap.** `Present` models the generator of presence events and gives it a
closed form over words and bits; `Radiotap` models the table of readers, vendor
blocks and the driving loop. `RadiotapFields` says what every field decodes to, as
arithmetic on its bytes; `RadiotapLaws` relates the cursor to a declarative layout, the
two output modes to each other, and the vendor record to the ids seen; `RadiotapWhole`
puts header, bitmap and run together.

**802.11 frames.** `Construct` is a small model of the construct library: a
grammar is a value, and parsing and building interpret it, with contexts, scopes,
rewinding ranges and exceptions (None). `ConstructLaws` proves the round trip for
*every* grammar, `ConstructLocal` that what surrounds a self-contained grammar does
not matter. `WifiGrammar` is the repository's grammar as one such value. The
remaining `Wifi…` modules follow whole frames, headers, information elements and the
RSN element byte by byte: which inputs are accepted, what is read from which bytes,
and what is left over. `WifiBits`, `WifiContents` and `WifiValues` say what every
field holds, as arithmetic on bytes at literal offsets. `Ccmp…` and `Elements…` model
what the SDK computes from a parsed frame: CCMP nonce and additional data, the element
index and the security classification, for whole frames down to the bytes and the bits.

**CAN.** `CanSniff` holds the communicator and its bus as classes; the bus is a
list of frames with arrival times and delivery delays.

### Where the code and its intent part

* `_split_dids` takes the second identifier at position 0, unchecked, when the
  first one is absent. `SplitIsBackedExactlyWhen` says exactly when the answer is
  still backed by the reply, `AbsentFirstIdentifierMisleads` gives an input where
  it is not.
* A text that is not UTF-8 can be rewritten by rebuilding it.
  `TextRebuildsExactlyWhen` is the exact condition, `Utf16TextIsRewritten` an input.
* In dictionary mode a presence bit of the vendor namespace raises KeyError: the
  record is looked up under the OUI, where it was never stored
  (`DictionaryRefinesList`). The documentation of the parser promises a dictionary.
  `VendorPacketHasNoDictionary` is a packet.
* The order of information elements can decide whether the security list raises:
  `SecurityIsOrderFreeExactlyWhen` is the exact condition, `EmptyVendorFirstRaises` two
  vendor elements in both orders.
* The comment on WPA3 transition mode asks for PSK and SAE, the code for either one:
  `TransitionIsAsDocumentedExactlyWhen` on the capabilities as they are parsed, with
  `PskAloneIsCalledTransition` as an input.
* The bit structs of the RSN capabilities and of QoS control are not byte-swapped, unlike
  those of frame control, sequence control and capability information. Management frame
  protection is thus read off bits 1 (required) and 0 (capable) of the first capability octet
  (`ProtectionIsLowBits`), while the fields the comment names are bits 6 and 7 of it in
  IEEE 802.11-2020, section 9.4.2.24.4. Likewise the traffic identifier is the upper half of
  its octet (`TidExactlyFor`), which the standard has in the lower half (section 9.2.4.5.2).
  `RsnClassIsDocumentedExactlyWhen` says over the element's bytes exactly when the class is
  still the documented one, `ProtectionBitsAreMisread` gives three elements where it is not.
* Elements of a fixed layout take the bytes of that layout whatever their length byte says:
  `ElementTakesItsLengthExactlyWhen` says for every id when both come to the same, and
  `ListIsSegmentationExactlyWhen` when the list of elements is the one the length bytes
  describe. By `LongDsElementShiftsTheList` an overlong DS element makes its own last byte the
  id of the next one.
* An RSN element may read past its own length: `RsnStaysWithinLength` and
  `RsnElementKeepsToItself` say exactly when it does not. `ShortRsnElementTakesTheNext` is
  one that takes the element behind it for its group cipher.
* `sniff` is documented to return None when nothing was sniffed; it returns an empty
  list (`SniffSilence`). `receive` may overrun its timeout when blacklisted frames arrive:
  `ReceiveOverrunsExactly` is the exact condition on every bus, over the instants at which
  frames are handed over, `ReceiveOverrunsExactlyWhen` the one over arrival times on a bus that
  delivers promptly, and by `OneBlacklistedFrameOverruns` a call can last as close to twice its
  timeout as one likes. Without a timeout it returns None at the first blacklisted frame
  (`ReceiveBlacklisted`).
* `this.len` in the REQUEST element and `this._.len` inside the bit struct of the
  RSN extension element look for a field that is not in their context, so neither parses
  unless it is empty (`StuckElementParsesExactlyWhen`), and the list of elements ends before
  it (`StuckElementEndsTheList`). By `RequestElementHidesRsn` a WPA3 network is then called
  WEP. The code is followed.
* The condition of the HT control field joins two expression objects with `and`,
  which yields the second one, so the order bit alone decides. The comparison of
  the data subtype with QOS_DATA compares labels as strings, which holds for
  subtypes 8 to 13. `HeaderFieldsAreThereExactlyWhen` says which fields that yields and
  exactly when they are those the two conditions name; `OrderBitBringsHtControl` is a frame.
  The code is followed in both cases.
* The rebuild check passes on frames that end in elements or have no body only if nothing
  trails: `ElementFramesRebuildExactlyWhen` and `BodilessFramesRebuildExactlyWhen` are the
  conditions on the bytes, `TrailingByteIsLost` a frame that is accepted and fails it.
  `AcceptedFrameRebuildsExactlyWhen` is the condition for frames of every kind.

## Model

| member | source | states |
|---|---|---|
| DidSplit.SplitDids | cyclarity_in_vehicle_sdk/protocol/uds/impl/uds_utils.py:629-652 | the loop with its carried position yields exactly the greedy split, each value as hexadecimal text, absent identifiers included |
| DidSplit.FindIsLeftmost | cyclarity_in_vehicle_sdk/protocol/uds/impl/uds_utils.py:637-642 | the search never lands to the right of any occurrence at or after its start |
| DidSplit.SplitNamesLongestPlaceablePrefix | cyclarity_in_vehicle_sdk/protocol/uds/impl/uds_utils.py:636-650 | if the first identifier occurs, k identifiers are named if and only if the first k can be placed in order without overlap at all |
| DidSplit.SplitCutsAtFirstOccurrence | cyclarity_in_vehicle_sdk/protocol/uds/impl/uds_utils.py:636-650 | if the first identifier occurs, each value ends where the next identifier first occurs behind it, and the last value does not hold the one that comes next in the request |
| DidSplit.AbsentFirstIdentifierIsSkipped | cyclarity_in_vehicle_sdk/protocol/uds/impl/uds_utils.py:636-650 | if the first identifier is absent, the second one is named whatever opens the reply, then the longest prefix of the others that can be placed behind two bytes; those bytes are conserved; of a single identifier nothing comes |
| DidSplit.SplitConservesBytes | cyclarity_in_vehicle_sdk/protocol/uds/impl/uds_utils.py:636-650 | identifiers and values, concatenated, are the reply from the first identifier on |
| DidSplit.SplitIsBackedExactlyWhen | cyclarity_in_vehicle_sdk/protocol/uds/impl/uds_utils.py:637-640 | the answer is a stretch of the reply if and only if at most one identifier is asked for, the first one occurs, or the second one opens the reply |
| DidSplit.AbsentFirstIdentifierMisleads | cyclarity_in_vehicle_sdk/protocol/uds/impl/uds_utils.py:637-640 | one reply whose answer names an identifier it does not contain |
| DidSplit.SplitInvertsJoin | cyclarity_in_vehicle_sdk/protocol/uds/impl/uds_utils.py:629-652 | splitting a concatenation of pairs gives the pairs back if and only if each next identifier first occurs where the value ends |
| DidSplit.ReadThenWriteGivesBytesBack | cyclarity_in_vehicle_sdk/protocol/uds/impl/uds_utils.py:61-72 | encoding every returned value with the hexadecimal codec gives the reply's bytes |
| HexText.HexRoundTrip | cyclarity_in_vehicle_sdk/protocol/uds/impl/uds_utils.py:65-72 | decoding to text and encoding is the identity on byte strings |
| HexText.HexIs | cyclarity_in_vehicle_sdk/protocol/uds/impl/uds_utils.py:71-72 | the text is two lower-case digits for each byte, the upper half first |
| HexText.FromHexExactly | cyclarity_in_vehicle_sdk/protocol/uds/impl/uds_utils.py:65-69 | a text without spaces is accepted if and only if it is hexadecimal digits of either case, two for each byte, and each byte is what its two digits say |
| HexText.SpacesAreSkipped | cyclarity_in_vehicle_sdk/protocol/uds/impl/uds_utils.py:65-69 | white space before a byte is skipped |
| UdsClient.UdsUtils.SendAndReadRawResponse | cyclarity_in_vehicle_sdk/protocol/uds/impl/uds_utils.py:585-627 | the nested loops leave the link and yield the verdict that the trace function says, for every trace |
| UdsClient.UdsUtils.SendAndReadResponse | cyclarity_in_vehicle_sdk/protocol/uds/impl/uds_utils.py:577-583 | a negative reply becomes the exception with its code, everything else passes |
| UdsExchangeLaws.NegativeResponseExactlyWhen | cyclarity_in_vehicle_sdk/protocol/uds/impl/uds_utils.py:577-583 | NegativeResponse carries a code if and only if the last thing received is a valid negative reply of the service with that code; 0x78 counts unless the frame after it was sent short |
| UdsExchangeLaws.ExchangeEndsAtFirstDecisiveReply | cyclarity_in_vehicle_sdk/protocol/uds/impl/uds_utils.py:585-627 | the run ends at the first malformed or final reply of the requested service, or a short send, and the verdict is read off the last receive; never more sends than attempts |
| UdsExchangeLaws.OnlyPositiveRepliesOfTheService | cyclarity_in_vehicle_sdk/protocol/uds/impl/uds_utils.py:577-627 | whatever is handed out was the last thing received and is valid, positive and of the requested service |
| UdsExchangeLaws.NoResponseUsesEveryAttempt | cyclarity_in_vehicle_sdk/protocol/uds/impl/uds_utils.py:587-625 | NoResponse if and only if every attempt was sent in full and the last receive was neither decisive nor pending |
| UdsExchangeLaws.PendingResultNeedsClockJump | cyclarity_in_vehicle_sdk/protocol/uds/impl/uds_utils.py:594-627 | a pending reply is the result only with attempts exhausted, as the last thing received, and with the clock past the pending timeout before another receive |
| UdsExchangeLaws.ExchangeTimeBound | cyclarity_in_vehicle_sdk/protocol/uds/impl/uds_utils.py:585-627 | receive time is at most two timeouts per frame sent and pending reply; with a least receive duration the number of receives is bounded too |
| UdsTiming.WindowStopsAtFirstEvent | cyclarity_in_vehicle_sdk/protocol/uds/impl/uds_utils.py:593-621 | listening stops exactly at the first settling receive or the first clock reading past the limit, counted from the last pending reply; the limit is a minute as soon as one pending reply was seen |
| UdsTiming.ExchangeIsConducted | cyclarity_in_vehicle_sdk/protocol/uds/impl/uds_utils.py:585-627 | the exchange is the only run by these rules: after each frame listening ends at the first settling receive or the first clock reading past the limit, which counts from the frame or the last pending reply and is the timeout asked for up to the first pending reply of the exchange and 60 seconds from then on; end state and verdict follow |
| UdsClient.UdsUtils.Session | cyclarity_in_vehicle_sdk/protocol/uds/impl/uds_utils.py:106-126 | one exchange whose reply is interpreted; an echo comes back if and only if the exchange closes with a positive reply of the service that has it; any exception is None; the session is recorded as requested |
| UdsSession.SessionEchoesExactlyWhen | cyclarity_in_vehicle_sdk/protocol/uds/impl/uds_utils.py:106-126 | a session change is its one exchange, none if the request does not build, and yields an echo if and only if that closes with a valid positive reply of the service whose interpretation it is |
| UdsClient.UdsUtils.SecurityAccess | cyclarity_in_vehicle_sdk/protocol/uds/impl/uds_utils.py:271-305 | grants if and only if the seed exchange brought a seed of zeros or the key exchange echoed the key level; `UdsSession.SecurityAccessGrantsExactlyWhen` proves it on every trace |
| UdsSession.SecurityAccessGrantsExactlyWhen | cyclarity_in_vehicle_sdk/protocol/uds/impl/uds_utils.py:271-305 | access is granted if and only if the seed exchange closes with a valid positive reply whose seed is all zero, and then nothing more is sent, or the exchange of the seed's key closes with an echo of the key level; refused if and only if that echo is another level |
| UdsSession.AllZeroExactly | cyclarity_in_vehicle_sdk/protocol/uds/impl/uds_utils.py:293-293 | a seed counts as unlocked if and only if it holds no byte but zero, the empty one included |
| UdsClient.UdsUtils.TransitToSession | cyclarity_in_vehicle_sdk/protocol/uds/impl/uds_utils.py:139-156 | the walk leaves the link, the result and the requested sessions of the trace function |
| UdsSession.TransitStopsAtFirstFailure | cyclarity_in_vehicle_sdk/protocol/uds/impl/uds_utils.py:139-156 | true if and only if every session exchange closes with a reply that interprets; otherwise the route up to and including the first that does not was requested; between entries the link advances by the session exchange and, with an algorithm, by the seed exchange and the exchange of its key; elevations never stop the walk |
| UdsSession.TransitFrameBound | cyclarity_in_vehicle_sdk/protocol/uds/impl/uds_utils.py:139-156 | at most attempts times route length plus twice the elevating entries frames are sent |
| Bits.AlignIsLeastMultiple | cyclarity_in_vehicle_sdk/external/python_radiotap/radiotap/radiotap.py:50-51 | for a power of two the mask trick is the least multiple not below the value |
| Present.PresentBits | cyclarity_in_vehicle_sdk/external/python_radiotap/radiotap/radiotap.py:252-282 | the generator with its reset flag yields the closed form: one event per set bit, ids counted from the last switching word, namespace of the latest switch |
| PresentLaws.EventsAreWellOrdered | cyclarity_in_vehicle_sdk/external/python_radiotap/radiotap/radiotap.py:252-282 | ids strictly increase between switches and every field carries the namespace of the latest one |
| PresentLaws.EventsAreBits | cyclarity_in_vehicle_sdk/external/python_radiotap/radiotap/radiotap.py:252-282 | every set bit has its event at its place and there are no others: bit 29 and bit 30 switch, bit 31 is none, each other bit is a field whose id counts from the word behind the last switching one and whose namespace that word chose |
| Radiotap.ParseFields | cyclarity_in_vehicle_sdk/external/python_radiotap/radiotap/radiotap.py:332-351 | the loop stops after exactly the processed events and yields their output or exception |
| Radiotap.RadiotapParse | cyclarity_in_vehicle_sdk/external/python_radiotap/radiotap/radiotap.py:301-351 | header checks, bitmap scan and field loop together are the parse function, in both output modes |
| RadiotapWhole.ParseIs | cyclarity_in_vehicle_sdk/external/python_radiotap/radiotap/radiotap.py:301-351 | without a header the result is length 0 and an empty dictionary; with one the bitmap ends at the first word with its top bit clear or is a StructError, the run stops at the first ending event, and the result is the declared length with its output |
| RadiotapFields.FieldIs | cyclarity_in_vehicle_sdk/external/python_radiotap/radiotap/radiotap.py:53-250 | for every id the bytes taken and what they decode to: names, offsets, two and four and eight byte numbers, signs of ids 5, 6 and 10, halved rate, MCS column, columns of VHT that are shown |
| RadiotapLaws.BitmapEndsAtFirstUnextendedWord | cyclarity_in_vehicle_sdk/external/python_radiotap/radiotap/radiotap.py:323-328 | every bitmap word but the last has the extension bit, the last has not |
| RadiotapLaws.StopsAtFirstEnd | cyclarity_in_vehicle_sdk/external/python_radiotap/radiotap/radiotap.py:333-349 | parsing stops exactly at the first event that fails, fills the header or has no reader |
| RadiotapLaws.CursorRefinesLayout | cyclarity_in_vehicle_sdk/external/python_radiotap/radiotap/radiotap.py:333-347 | the cursor stands at the end of the last interval of the declarative layout |
| RadiotapLaws.IntervalIsDecoded | cyclarity_in_vehicle_sdk/external/python_radiotap/radiotap/radiotap.py:284-347 | each interval of the layout adds exactly the fields its bytes decode to, to the list or to the dictionary, and moves the cursor to its end; StructError if and only if what is read of it leaves the packet |
| RadiotapLaws.OtherEventsAreSilent | cyclarity_in_vehicle_sdk/external/python_radiotap/radiotap/radiotap.py:284-349 | a switch back to radiotap and a field without a reader change nothing |
| RadiotapLaws.SpanIsTight | cyclarity_in_vehicle_sdk/external/python_radiotap/radiotap/radiotap.py:50-215 | an interval starts at the least multiple of its reader's alignment at or after the previous end |
| RadiotapLaws.IntervalsAreDisjoint | cyclarity_in_vehicle_sdk/external/python_radiotap/radiotap/radiotap.py:333-347 | fields and vendor blocks are disjoint, in event order and after the bitmap |
| RadiotapLaws.DictionaryRefinesList | cyclarity_in_vehicle_sdk/external/python_radiotap/radiotap/radiotap.py:284-351 | the dictionary is the last-wins merge of the list with the same length, unless a vendor presence bit is processed, and then it raises KeyError |
| RadiotapLaws.VendorPacketHasNoDictionary | cyclarity_in_vehicle_sdk/external/python_radiotap/radiotap/radiotap.py:284-351 | one packet with a vendor presence bit: a list comes of it, as a dictionary it raises KeyError |
| RadiotapLaws.VendorRecordCollectsBits | cyclarity_in_vehicle_sdk/external/python_radiotap/radiotap/radiotap.py:293-347 | throughout a vendor namespace the last item is its record and `present` is the sum of 2^id over the bits since |
| BitOrder.FlippedFieldIsShiftAndMask | cyclarity_in_vehicle_sdk/communication/wlan/mac_parsing.py:30-39 | for any width and offset, a flipped field of a byte-swapped bit stream is the shift-and-mask slice of the little-endian integer |
| BitOrder.UnstreamStream | cyclarity_in_vehicle_sdk/communication/wlan/mac_parsing.py:692-709 | writing the bits of a byte string, in either bit order, gives the bytes back |
| MacText.MacPartsRoundTrip | cyclarity_in_vehicle_sdk/communication/wlan/mac_parsing.py:42-53 | encoding the text of an address gives its bytes |
| MacText.MacTextIs | cyclarity_in_vehicle_sdk/communication/wlan/mac_parsing.py:42-45 | the text is six pairs of lower-case digits with colons between them |
| MacText.AddrToBinRoundTrip | cyclarity_in_vehicle_sdk/communication/wlan/crypto_utils.py:45-46 | so does reading it without its colons |
| ConstructLaws.RateRoundTrip | cyclarity_in_vehicle_sdk/communication/wlan/mac_parsing.py:56-69 | rate and basic flag encode back to the byte they came from |
| WifiContents.RateIs | cyclarity_in_vehicle_sdk/communication/wlan/mac_parsing.py:56-62 | the rate is half the low seven bits and basic if and only if the byte is at least 128 |
| ConstructLaws.EncodeKeepsLength | cyclarity_in_vehicle_sdk/communication/wlan/mac_parsing.py:77-103 | a text that decodes always encodes, to as many bytes |
| ConstructLaws.TextRebuildsExactlyWhen | cyclarity_in_vehicle_sdk/communication/wlan/mac_parsing.py:77-103 | a text rebuilds if and only if it is UTF-8, or little-endian UTF-16 whose UTF-8 form has another length |
| ConstructLaws.Utf16TextIsRewritten | cyclarity_in_vehicle_sdk/communication/wlan/mac_parsing.py:77-103 | two bytes that come back changed |
| ConstructLaws.BitsRoundTrip | cyclarity_in_vehicle_sdk/communication/wlan/mac_parsing.py:692-709 | the fields of a bit struct, flipped or not, build to the bits they were read from |
| ConstructLaws.RoundTrip | cyclarity_in_vehicle_sdk/communication/wlan/mac_parsing.py:535-731 | for every grammar and input, building what was parsed succeeds, writes as many bytes as were consumed, and writes those bytes if and only if every text among them rebuilds |
| ConstructTail.GreedyTilesPrefix | cyclarity_in_vehicle_sdk/communication/wlan/mac_parsing.py:553-554 | the items of a range tile a prefix and what is left does not begin with another item |
| ConstructTail.TilingIsGreedy | cyclarity_in_vehicle_sdk/communication/wlan/mac_parsing.py:553-554 | conversely, any items that tile a prefix after which no item begins are what the range reads |
| ConstructLocal.ParseIsLocal | cyclarity_in_vehicle_sdk/communication/wlan/mac_parsing.py:535-554 | a grammar whose references stay within it and a given number of structs around it parses the same whatever lies further out |
| WifiLaws.FrameRebuilds | cyclarity_in_vehicle_sdk/communication/wlan/wlan_communicator.py:69-71 | every accepted frame builds, to a prefix of its input unless a text changed |
| WifiLaws.RebuildCheckPassesExactlyWhen | cyclarity_in_vehicle_sdk/communication/wlan/wlan_communicator.py:70-74 | the rebuild equals the packet if and only if nothing was left over and every text rebuilds |
| WifiLaws.SwappedBitField | cyclarity_in_vehicle_sdk/communication/wlan/mac_parsing.py:692-725 | a named field of a swapped bit struct is a slice of the little-endian integer |
| WifiAccept.FrameBodyOf | cyclarity_in_vehicle_sdk/communication/wlan/mac_parsing.py:712-731 | a frame that is not a control frame is 24 header bytes, field by field, and the body its type selects |
| WifiFrames.TypeAgreesWithShiftAndMask | cyclarity_in_vehicle_sdk/external/python_radiotap/radiotap/radiotap.py:356-376 | type and subtype of the grammar are the shifts and masks of the other parser |
| WifiFrames.SequenceAgreesWithShiftAndMask | cyclarity_in_vehicle_sdk/external/python_radiotap/radiotap/radiotap.py:417-425 | so are fragment and sequence number |
| WifiControl.SequenceNumberIsShift | cyclarity_in_vehicle_sdk/external/python_radiotap/radiotap/radiotap.py:423-425 | the twelve bits are all that the shift leaves |
| WifiBits.ControlOfBytes | cyclarity_in_vehicle_sdk/communication/wlan/mac_parsing.py:692-709 | all eleven fields of frame control as arithmetic on its two bytes |
| WifiBits.CapabilityOfBytes | cyclarity_in_vehicle_sdk/communication/wlan/mac_parsing.py:209-226 | all sixteen flags of capability information |
| WifiBits.RsnCapabilitiesOfBytes | cyclarity_in_vehicle_sdk/communication/wlan/mac_parsing.py:390-405 | all fourteen fields of the RSN capabilities |
| WifiBits.QosOfBytes | cyclarity_in_vehicle_sdk/communication/wlan/mac_parsing.py:556-562 | all five fields of QoS control |
| WifiAccept.ControlFrameTakesAll | cyclarity_in_vehicle_sdk/communication/wlan/mac_parsing.py:712-731 | a control frame is parsed to its last byte |
| WifiAccept.FrameFollows | cyclarity_in_vehicle_sdk/communication/wlan/mac_parsing.py:712-731 | a frame that is not a control frame is accepted if and only if it has 24 bytes and its body parses |
| WifiAccept.ControlFrameFollows | cyclarity_in_vehicle_sdk/communication/wlan/mac_parsing.py:712-731 | a control frame is accepted if and only if it has 10 bytes; nothing is left over and there is no body |
| WifiTails.GreedyKindsLeaveNothing | cyclarity_in_vehicle_sdk/communication/wlan/mac_parsing.py:575-731 | so are extension frames, beacon, disassociation, authentication, deauthentication, action and reserved management frames, and data frames with a body |
| WifiTails.GreedyKindsRebuildExactly | cyclarity_in_vehicle_sdk/communication/wlan/wlan_communicator.py:70-74 | for these kinds the rebuild check passes if and only if every text rebuilds |
| WifiTails.ElementsAlwaysParse | cyclarity_in_vehicle_sdk/communication/wlan/mac_parsing.py:535-554 | the repeat over elements ends on every input |
| WifiTails.ElementsTilePrefix | cyclarity_in_vehicle_sdk/communication/wlan/mac_parsing.py:535-554 | elements tile a prefix, at least two bytes each, and the rest does not begin with a parsable one |
| WifiLocal.ElementAnywhere | cyclarity_in_vehicle_sdk/communication/wlan/mac_parsing.py:535-545 | an information element parses the same wherever it stands |
| WifiLocal.NothingLeftExactlyWhen | cyclarity_in_vehicle_sdk/communication/wlan/mac_parsing.py:553-554 | a list of elements leaves nothing over if and only if its bytes are whole elements one after the other |
| WifiBodies.ElementFramesRebuildExactlyWhen | cyclarity_in_vehicle_sdk/communication/wlan/wlan_communicator.py:70-74 | association, reassociation and probe frames are accepted if and only if header and fixed fields are there, and rebuild if and only if the bytes after those are whole elements and every text rebuilds |
| WifiHeader.HeaderParses | cyclarity_in_vehicle_sdk/communication/wlan/mac_parsing.py:564-572 | the header of a data frame parses if and only if the bytes of its optional fields are there, each field from its own bytes |
| WifiHeader.HeaderFieldsAreThereExactlyWhen | cyclarity_in_vehicle_sdk/communication/wlan/mac_parsing.py:564-572 | fourth address with both DS flags, QoS control for subtypes 8 to 13, HT control with the order bit; as the written conditions name them except for the order bit below subtype 8 and for subtypes 14 and 15 |
| WifiHeader.OrderBitBringsHtControl | cyclarity_in_vehicle_sdk/communication/wlan/mac_parsing.py:570-571 | a null-function frame without QoS whose last four bytes become HT control |
| WifiHeader.BodilessFramesRebuildExactlyWhen | cyclarity_in_vehicle_sdk/communication/wlan/wlan_communicator.py:70-74 | data frames without a body are accepted from the length of their header on and rebuild if and only if they have exactly that length |
| WifiHeader.TrailingByteIsLost | cyclarity_in_vehicle_sdk/communication/wlan/wlan_communicator.py:70-74 | one frame that is accepted and does not rebuild |
| WifiBodies.ManagementFrameFollows | cyclarity_in_vehicle_sdk/communication/wlan/mac_parsing.py:575-640 | a management frame is accepted if and only if header and the fixed fields of its subtype are there; in association, reassociation and probe frames nothing is left over if and only if the bytes after those are whole elements |
| WifiValues.FrameValues | cyclarity_in_vehicle_sdk/communication/wlan/mac_parsing.py:564-731 | every field of an accepted frame that is not a control frame off literal offsets: header, fixed fields of each management subtype and what follows them, data header and body |
| WifiValues.ControlFrameValues | cyclarity_in_vehicle_sdk/communication/wlan/mac_parsing.py:712-731 | every field of a control frame |
| WifiWhole.FrameAcceptedExactlyWhen | cyclarity_in_vehicle_sdk/communication/wlan/mac_parsing.py:575-731 | a frame of any kind is accepted if and only if it has the least length that its first two bytes ask for |
| WifiWhole.AcceptedFrameRebuildsExactlyWhen | cyclarity_in_vehicle_sdk/communication/wlan/wlan_communicator.py:70-74 | an accepted frame of any kind rebuilds to itself if and only if every text rebuilds and nothing trails: whole elements alone after the fixed fields of association, reassociation and probe frames, the least length for data frames without a body |
| WifiElements.ElementIs | cyclarity_in_vehicle_sdk/communication/wlan/mac_parsing.py:535-545 | an element is its id, its length and the content its id selects, absent when the length is 0 |
| WifiElements.ElementFollows | cyclarity_in_vehicle_sdk/communication/wlan/mac_parsing.py:535-545 | an element that is no extension parses if and only if its content does |
| WifiContents.ElementOfBytes | cyclarity_in_vehicle_sdk/communication/wlan/mac_parsing.py:288-545 | every element but RSN elements and extensions, byte by byte: for each id whether it parses, its fields as arithmetic on the bytes, and what is left |
| WifiSizes.ExtensionElementIs | cyclarity_in_vehicle_sdk/communication/wlan/mac_parsing.py:535-545 | the same for extensions |
| WifiStuck.StuckElementParsesExactlyWhen | cyclarity_in_vehicle_sdk/communication/wlan/mac_parsing.py:341-343 | a REQUEST or RSN extension element parses if and only if both head bytes are there and its length is 0 |
| WifiStuck.StuckElementEndsTheList | cyclarity_in_vehicle_sdk/communication/wlan/mac_parsing.py:469-554 | wherever whole elements lead up to such an element that is not empty, the list is those elements and everything from it on is left over |
| ElementsCases.RequestElementHidesRsn | cyclarity_in_vehicle_sdk/communication/wlan/wlan_communicator.py:122-193 | a list on which a REQUEST element before an RSN element turns WPA3 into WEP |
| WifiSizes.ElementTakesItsLengthExactlyWhen | cyclarity_in_vehicle_sdk/communication/wlan/mac_parsing.py:310-545 | a parsed element of any id takes a number of bytes read off its first ones; it is two plus its length if and only if that length is what the layout of its id takes |
| WifiSizes.ListIsSegmentationExactlyWhen | cyclarity_in_vehicle_sdk/communication/wlan/mac_parsing.py:535-554 | the list of elements starts them where the length bytes lead if and only if every one of them takes its length and no whole element is left over |
| ElementsCases.LongDsElementShiftsTheList | cyclarity_in_vehicle_sdk/communication/wlan/mac_parsing.py:317-319 | a DS element of length 2 whose second byte becomes the id of an SSID element |
| WifiRsnLayout.RsnParses | cyclarity_in_vehicle_sdk/communication/wlan/mac_parsing.py:407-424 | the content of an RSN element parses if and only if the bytes of its layout are there; it takes those, and every suite, count and capability is what they mean |
| WifiRsn.RsnElementParsesExactlyWhen | cyclarity_in_vehicle_sdk/communication/wlan/mac_parsing.py:407-545 | the same for the element: it takes the bytes of its layout whether or not its length covers them |
| WifiRsn.RsnStaysWithinLength | cyclarity_in_vehicle_sdk/communication/wlan/mac_parsing.py:407-424 | later optional fields need the earlier ones; the content stays within its length if and only if that is at least 6 and each list let in fits; then at most 3 bytes are left without the group management suite |
| WifiRsn.RsnElementKeepsToItself | cyclarity_in_vehicle_sdk/communication/wlan/mac_parsing.py:407-545 | the same for the element in a list, over the counts and fields of its own record: exactly then it does not reach into the next one |
| ElementsCases.ShortRsnElementTakesTheNext | cyclarity_in_vehicle_sdk/communication/wlan/mac_parsing.py:407-545 | an RSN element of length 2 whose group cipher is the SSID element behind it |
| Ccmp.GetPn | cyclarity_in_vehicle_sdk/communication/wlan/crypto_utils.py:36-43 | the shifts and ors yield the little-endian value of PN0 to PN5 |
| Ccmp.PnToBinReverses | cyclarity_in_vehicle_sdk/communication/wlan/crypto_utils.py:48-49 | the nonce form of a packet number is its octets from PN5 down |
| Ccmp.Derive | cyclarity_in_vehicle_sdk/communication/wlan/crypto_utils.py:29-34 | the constructor succeeds if and only if the payload has a header and nonce and additional data exist; key id and data are where the header says |
| CcmpFrames.TidExactlyFor | cyclarity_in_vehicle_sdk/communication/wlan/mac_parsing.py:556-731 | outside control frames exactly data subtypes 8 to 12 have a traffic identifier, the top of the byte after the header and the fourth address if any |
| CcmpLaws.RebuiltControl | cyclarity_in_vehicle_sdk/communication/wlan/crypto_utils.py:58-60 | whatever becomes of its texts, a frame rebuilds to its own first two bytes |
| CcmpLaws.AadIs | cyclarity_in_vehicle_sdk/communication/wlan/crypto_utils.py:57-73 | the additional data of a QoS data frame as a function of the frame's bytes |
| CcmpLaws.FragmentIsMasked | cyclarity_in_vehicle_sdk/communication/wlan/crypto_utils.py:62-64 | of any fragment number the low four bits enter |
| CcmpLaws.AadExistsExactlyFor | cyclarity_in_vehicle_sdk/communication/wlan/crypto_utils.py:57-73 | deriving it succeeds if and only if the accepted frame is a data frame of subtype 8 to 12 |
| CcmpLaws.AadEqualExactlyWhen | cyclarity_in_vehicle_sdk/communication/wlan/crypto_utils.py:57-73 | two frames share it if and only if their parses agree on version, type, top subtype bit, DS flags, more-fragments, protected, order, three addresses, fragment number and tid |
| CcmpLaws.AadIgnores | cyclarity_in_vehicle_sdk/communication/wlan/crypto_utils.py:59-65 | retry, power management, more-data, duration and sequence number never change it |
| CcmpLaws.NonceEqualExactlyWhen | cyclarity_in_vehicle_sdk/communication/wlan/crypto_utils.py:51-55 | nonces have 13 bytes and coincide if and only if tid, transmitter and packet number do |
| Elements.WiFiPacket.constructor | cyclarity_in_vehicle_sdk/communication/wlan/wlan_communicator.py:64-80 | a packet starts with the index of its elements |
| Elements.WiFiPacket.Receive | cyclarity_in_vehicle_sdk/communication/wlan/wlan_communicator.py:64-80 | a packet comes of exactly the frames that parse, and is warned about exactly when bytes are left over or a text changes |
| Elements.WiFiPacket.ParseIeElements | cyclarity_in_vehicle_sdk/communication/wlan/wlan_communicator.py:94-113 | a repeating id maps to the ordered filter of its elements, any other id to its first element, no other id is there |
| Elements.RepeatingIds | cyclarity_in_vehicle_sdk/communication/wlan/mac_parsing.py:280-285 | the repeating ids are 221, 255, 107 and 127 |
| Elements.WiFiPacket.Security | cyclarity_in_vehicle_sdk/communication/wlan/wlan_communicator.py:122-193 | the list read off the dictionary is the classification of the element list |
| ElementsLaws.SecurityIsOrderFreeExactlyWhen | cyclarity_in_vehicle_sdk/communication/wlan/wlan_communicator.py:122-193 | every reordering that keeps the RSN elements in order gives the same list if and only if no empty vendor element stands beside one that announces WPA, or the RSN element raises anyway |
| ElementsLaws.LaterRsnElementsAreIgnored | cyclarity_in_vehicle_sdk/communication/wlan/wlan_communicator.py:135-180 | appending RSN elements after the first changes nothing |
| ElementsLaws.OtherElementsAreIgnored | cyclarity_in_vehicle_sdk/communication/wlan/wlan_communicator.py:122-193 | inserting elements of any other id anywhere changes nothing |
| ElementsLaws.SecurityShape | cyclarity_in_vehicle_sdk/communication/wlan/wlan_communicator.py:122-193 | WPA comes first if and only if a vendor element announces it, then the class of the first RSN element if there is one; two entries if and only if there are both; WEP and OPEN stand alone, without either |
| ElementsBytes.SecurityOfBytes | cyclarity_in_vehicle_sdk/communication/wlan/wlan_communicator.py:122-193 | the security list over the bytes of the element list: WPA if a vendor element starts 00 50 F2 01, then the class of the first RSN element off its bytes; without either the privacy bit |
| ElementsBytes.FrameElementsAre | cyclarity_in_vehicle_sdk/communication/wlan/wlan_communicator.py:94-99 | the elements of an accepted frame are those among the bytes behind the fixed fields of seven management subtypes; other frames have none |
| ElementsBytes.FrameSecurityIs | cyclarity_in_vehicle_sdk/communication/wlan/wlan_communicator.py:122-193 | the security list of whole accepted frames off their bytes; OPEN for frames without elements |
| ElementsLaws.Wpa3ExactlyWhen | cyclarity_in_vehicle_sdk/communication/wlan/wlan_communicator.py:140-171 | WPA3 if and only if protection is required and supported, SAE is offered, PSK and PSK-SHA256 are not, and no group, pairwise or management cipher is WEP or TKIP |
| ElementsLaws.TransitionIsAsDocumentedExactlyWhen | cyclarity_in_vehicle_sdk/communication/wlan/wlan_communicator.py:147-178 | on capabilities as parsed, transition mode agrees with the comment that defines it, except if and only if protection is optional and exactly one of PSK and SAE is offered |
| ElementsLaws.PskAloneIsCalledTransition | cyclarity_in_vehicle_sdk/communication/wlan/wlan_communicator.py:147-178 | one RSN element on which code and comment differ |
| ElementsRsn.ProtectionIsLowBits | cyclarity_in_vehicle_sdk/communication/wlan/mac_parsing.py:390-405 | management frame protection required and capable are bits 1 and 0 of the first capability octet |
| ElementsRsn.ListedExactlyWhen | cyclarity_in_vehicle_sdk/communication/wlan/mac_parsing.py:407-424 | the parsed list of suites holds exactly the suites among its bytes |
| ElementsRsn.RsnClassIsDocumentedExactlyWhen | cyclarity_in_vehicle_sdk/communication/wlan/wlan_communicator.py:135-180 | the class of a parsed RSN element as a function of its bytes; it is the documented class if and only if both readings of the capability octet come to the same for the offered suites |
| ElementsCases.ProtectionBitsAreMisread | cyclarity_in_vehicle_sdk/communication/wlan/wlan_communicator.py:135-180 | three elements: WPA2 where the comment says transition mode and WPA3, and WPA3 for one without frame protection |
| ElementsCases.EmptyVendorFirstRaises | cyclarity_in_vehicle_sdk/communication/wlan/wlan_communicator.py:125-133 | two parsed vendor elements: one order raises, the other is WPA |
| ElementsFrames.WpaAnnouncedExactlyWhen | cyclarity_in_vehicle_sdk/communication/wlan/mac_parsing.py:482-545 | a vendor element with content announces WPA if and only if its content starts with the bytes 00 50 F2 01 |
| ElementsFrames.ParsedElementsRaiseOnlyWhenEmpty | cyclarity_in_vehicle_sdk/communication/wlan/mac_parsing.py:407-545 | in every parsed list, reading a vendor or RSN element raises if and only if its length is 0 |
| ElementsFrames.SecurityRaisesExactlyWhen | cyclarity_in_vehicle_sdk/communication/wlan/wlan_communicator.py:122-193 | on parsed elements the classification raises if and only if an empty vendor element comes before any WPA one, the first RSN element is empty, or there is neither and no capability information |
| ElementsWhole.FramePrivacy | cyclarity_in_vehicle_sdk/communication/wlan/wlan_communicator.py:182-191 | the privacy of an accepted frame off its bytes: bit 4 of capability information, none for control frames and empty opaque bodies, an exception otherwise |
| ElementsWhole.PrivacyRaisesExactlyWhen | cyclarity_in_vehicle_sdk/communication/wlan/wlan_communicator.py:182-191 | reading privacy raises if and only if the frame is a probe request, a farewell, an authentication or action frame, a data frame with a header, or has an opaque body that is not empty |
| ElementsWhole.FrameSecurityRaisesExactlyWhen | cyclarity_in_vehicle_sdk/communication/wlan/wlan_communicator.py:122-193 | for whole accepted frames the security list raises if and only if an empty vendor element comes before any WPA one, the first RSN element is empty, or there is neither and reading privacy raises |
| CanSniff.SocketcanBus.Recv | cyclarity_in_vehicle_sdk/communication/can/impl/can_communicator_socketcan.py:90-90 | the next frame if it arrives within the timeout, None after exactly the timeout otherwise |
| CanSniff.CanCommunicatorSocketCan.ReceiveOne | cyclarity_in_vehicle_sdk/communication/can/impl/can_communicator_socketcan.py:80-85 | one frame is awaited and dropped if blacklisted; blocks exactly when no frame comes |
| CanSniff.CanCommunicatorSocketCan.ReceiveWithin | cyclarity_in_vehicle_sdk/communication/can/impl/can_communicator_socketcan.py:87-94 | everything else delivered is blacklisted, and the call lasts less than twice the timeout |
| CanSniff.ReceiveOverrunsExactly | cyclarity_in_vehicle_sdk/communication/can/impl/can_communicator_socketcan.py:87-94 | on every line, with whatever delay it delivers, a receive overruns its timeout if and only if a frame is handed over inside the window and all that are by its end are blacklisted and come before it |
| CanSniff.ReceiveOverrunsExactlyWhen | cyclarity_in_vehicle_sdk/communication/can/impl/can_communicator_socketcan.py:87-94 | with prompt delivery a receive overruns its timeout if and only if a frame arrives strictly inside the window and all that arrive by its end are blacklisted and come before it |
| CanSniff.OneBlacklistedFrameOverruns | cyclarity_in_vehicle_sdk/communication/can/impl/can_communicator_socketcan.py:87-94 | one blacklisted frame makes a receive last twice its timeout, less a margin as small as one likes |
| CanSniff.CanCommunicatorSocketCan.Receive | cyclarity_in_vehicle_sdk/communication/can/impl/can_communicator_socketcan.py:68-94 | raises exactly when not open, and otherwise yields what was delivered without blacklisted frames |
| CanSniff.ReceiveBlacklisted | cyclarity_in_vehicle_sdk/communication/can/impl/can_communicator_socketcan.py:80-85 | without a timeout a blacklisted frame ends the wait with None though another one follows |
| CanSniff.CanCommunicatorSocketCan.Sniff | cyclarity_in_vehicle_sdk/communication/can/impl/can_communicator_socketcan.py:96-116 | exactly the delivered frames that are not blacklisted, in order, in less than twice the time; with prompt delivery no frame arriving before the end is missed |
| CanSniff.SniffSilence | cyclarity_in_vehicle_sdk/communication/can/impl/can_communicator_socketcan.py:96-116 | on a silent line the answer is an empty list, after closing it is the exception |
| CanSniff.CanCommunicatorSocketCan.AddToBlacklist | cyclarity_in_vehicle_sdk/communication/can/impl/can_communicator_socketcan.py:118-125 | the ids join the blacklist |
| CanSniff.BlacklistGrows | cyclarity_in_vehicle_sdk/communication/can/impl/can_communicator_socketcan.py:82-125 | a longer blacklist removes exactly the frames with a new id from what is kept |
| CanSniff.KeptExactly | cyclarity_in_vehicle_sdk/communication/can/impl/can_communicator_socketcan.py:82-92 | a frame is kept if and only if it was delivered and is not blacklisted |

## Left out

Behaviour outside the model:

- Other UDS services, the DoIP and CAN transports, shells, network and GPIO plumbing, plugin wrappers and pydantic models.
- udsoncan, python-can and AES-CCM: builders and interpreters of udsoncan are parameters, decryption is not modelled.
- Logging, and exceptions raised by a receive of the data link.
- The clock: times are real numbers, so floating-point rounding is not modelled.
- The link after its last reply stays silent; every trace is finite but as long as one likes.
- VHT derived values and the MCS rate table, which enter as parameters.
- `ieee80211_parse` beyond its shifts and masks; the QoS control field of that parser is not compared.
- Text encodings are functions with laws: decoding and encoding are inverse, and both byte orders of UTF-16 take the same room.
- Enumeration labels: values are integers, flags 0 and 1; the comparison of data subtype labels is the set of subtypes it holds for.
- Address texts are read digit by digit; the signs, prefixes, spaces and underscores that `int(part, 16)` also takes never occur in a parsed frame.
- Grammars that use a field name twice have no parse in the model, and a range over an item that takes no input has none either; the frame grammar has neither.
- HT capabilities and the SSID list, which the grammar defines but does not use.
- WiFi frame decryption's payload check and `get_payload`.

Contracts that say less than one might expect:

- CanSniff.SocketcanBus.Recv: a receive that brings nothing lasts exactly its timeout, never less, because only then does the loop above it make progress on every bus.
- Elements.WiFiPacket.Receive: the warning is a flag; the texts that are logged are not modelled.
- UdsClient.UdsUtils.Session: every exception is one outcome, because the walk along a route treats them alike.
