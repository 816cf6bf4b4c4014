# Verified model of the LAN scanner

The plugin finds the devices on a local network. On Android it starts a bundled
C program that asks the kernel for its neighbour table over netlink and prints
it, and Kotlin code that scans the subnet and reads the printed table. On iOS
Swift code scans the subnet itself. Both ask hosts for their names over mDNS.

This project models the parts of it that carry state or work on bytes, in Dafny
4.11, and proves what they promise. `dafny verify dfyconfig.toml` checks it all.

| files | part of the plugin |
|---|---|
| `Common`, `Bytes`, `BitOps`, `Text` | buffers, little-endian fields, bit operations on numbers, decimal and hex text, joining and splitting |
| `Netlink`, `DumpFilter`, `FlatDump` | the message walk, the dump loop, and what a dump does whatever the cut into datagrams |
| `Attributes` | building and parsing attributes in a buffer |
| `PrefixMatch`, `LinkAddress`, `Neighbour`, `StateNames`, `EntryFormat`, `FlushQueue` | filtering, queuing and printing neighbour entries, and what is printed read from the bytes of the entry |
| `ArpTable`, `ArpRoundTrip`, `Pipeline`, `AndroidEnv` | the Kotlin parser, the round trip through the printed line, and the way from datagrams to hosts, in general and with what the program runs with |
| `ScanRange`, `ScanLists`, `ScanWorkers`, `KotlinRun`, `SwiftRun`, `SwiftRace` | which addresses a scan visits, and the event stream of a run under every interleaving |
| `DnsName`, `Mdns`, `DnsQuery`, `DottedQuad` | names on the wire, requests and answers, addresses and netmasks as text |
| `Checksum` | the ICMP checksum |
| `MplsPrinter`, `DigitPrinter`, `DnetPrinter`, `IpxPrinter` | the bounded-buffer printers for MPLS, DECnet and IPX |
| `HashList`, `LlMap`, `CircularList` | the intrusive lists and the interface cache |

Code that works in place is modelled by methods on arrays and objects with
explicit cursors; their contracts tie them to functions on sequences, and the
properties are lemmas about those functions. The two scan runs are state
machines over the atomic steps of the workers, the body and the caller.

Integer widths are explicit. Kotlin's `Int` and its shifts, the 16-bit length
fields and 32-bit sequence numbers wrap as in the source; Swift's additions trap.
Netlink headers are little-endian, as on every host the plugin runs on; only
`PrefixMatch` covers both byte orders.

Some promises the code does not keep for every input. The model keeps the code
as it is and states exactly when they hold:

- An attribute too long for its 16-bit length field is accepted, and does not read
  back (`Attributes.ReadsBackIffDescribable`, `Attributes.AddAttrHolds`,
  `Attributes.RunReadsBackIff`).
- A flush whose `send` fails with EADDRNOTAVAIL loses its batch. One whose answer is
  an error of another kind, or whose `recv` fails in another way, leaves its batch both sent and
  pending, so that it goes out again (`FlushQueue.StillSentOnceIff`, `FlushQueue.UncleanFlush`,
  `FlushQueue.BatchLostOrRepeated`, `FlushQueue.SentOnceThroughoutIff`).
- A router and proxy entry without link address is kept under the address "proxy"
  (`ArpRoundTrip.KeptHostMac`).
- A Kotlin scan misses hosts for prefix lengths 0 and 1 (`ScanRange.KotlinCoversIff`),
  and cannot build addresses near either end of the address space
  (`ScanRange.EveryHostHasFourBytesIff`, `KotlinRun.CompletesOnlyInTheMiddle`).
- A response whose id differs from that of the request in one byte only is taken for an
  answer (`Mdns.IgnoredIff`).
- A Swift scan posts two nils when its end and a stop overlap (`SwiftRace.TwoNilsIff`).
- `DnsName.EncodersAgreeIff`, `Mdns.RequestIdCollides`, `Mdns.SameIdIff`,
  `Mdns.OffsetIsStartIff`, `Checksum.OddLengthIff` and `DottedQuad.MaskRoundTripIff`
  are of the same kind.

The program makes a new Swift scanner for every listener and starts it once
(ios/Classes/handler/LanDeviceHandler.swift:17-31), which is the case of
`SwiftRun.OneScan`. `SwiftRun.OrderlyRun` and `SwiftRun.PrematureNil` are facts about
the class for a caller that starts one scanner again.

## Model

| member | source | states |
|---|---|---|
| `Netlink.WalkCons` | android/src/main/c/libnetlink.c:268-303 | A padded message in front of a datagram is the first one the NLMSG_OK/NLMSG_NEXT walk visits; the rest of the walk and its remnant are those of the rest |
| `Netlink.WalkAppend` | android/src/main/c/libnetlink.c:268-303 | A walk without remnant continues into whatever is appended, message for message |
| `Netlink.WindowStep` | android/src/main/c/libnetlink.c:268-303 | The walk by a cursor in the receive buffer is the walk over the bytes that remain |
| `Netlink.SendCheck` | android/src/main/c/libnetlink.c:120-152 | A failed send fails with its errno; nothing to read is a success exactly for errno 11 (EAGAIN); an answer of any content, truncated error messages included, gives the verdict of its messages |
| `Netlink.WalkForError` | android/src/main/c/libnetlink.c:138-151 | The loop with its cursor and signed remaining length computes the verdict of the flat message list |
| `Netlink.AnswerIsSuccess` | android/src/main/c/libnetlink.c:138-151 | An answer is a success exactly when none of its messages is an NLMSG_ERROR; then errno is untouched |
| `Netlink.FirstErrorDecides` | android/src/main/c/libnetlink.c:140-148 | The first message of type 2 (NLMSG_ERROR) of an answer, an acknowledgement included, fails the call and sets errno to minus the signed number in its bytes 16 to 19, unless it is shorter than 36 bytes |
| `Netlink.RestampedHeader` | android/src/main/c/libnetlink.c:168-170 | Restamping changes type, flags, sequence number (mod 2^32) and port, and nothing after the header |
| `Netlink.HeaderLayout` | android/src/main/c/libnetlink.c:268-287 | Where length, type, flags and sequence number lie in the 16 bytes of a header, low byte first |
| `DumpFilter.ClearedHeader` | android/src/main/c/libnetlink.c:271 | Clearing nc_flags changes those flag bits and no other byte of the message |
| `DumpFilter.TakeMessage` | android/src/main/c/libnetlink.c:271 | The flags are cleared in place in the receive buffer, and the message at the cursor is then the cleared one |
| `DumpFilter.FilterBuffer` | android/src/main/c/libnetlink.c:264-304 | One filter over one received buffer, in place: the calls made, how it ends, the signed length left over, and the buffer afterwards |
| `DumpFilter.FilterAll` | android/src/main/c/libnetlink.c:263-305 | All filters in turn over the same buffer; flags that one cleared stay cleared for the next |
| `DumpFilter.RtnlHandle.DumpFilterL` | android/src/main/c/libnetlink.c:223-323 | The receive loop over any sequence of receipts: returned code, exit over a remnant or still waiting, and every filter call |
| `DumpFilter.RtnlHandle.DumpRequest` | android/src/main/c/libnetlink.c:154-173 | The request goes out with fresh sequence number, dump flags and port 0, and the handle remembers that number as the running dump |
| `DumpFilter.RtnlHandle.constructor` | android/src/main/c/libnetlink.c:111 | The sequence number starts at the time, in 32 bits |
| `FlatDump.PassIsFlat` | android/src/main/c/libnetlink.c:264-304 | One pass over one datagram gives the calls, verdict and remnant of the flat run over its messages |
| `FlatDump.RunIsFlat` | android/src/main/c/libnetlink.c:223-335 | For one filter and datagrams without remnants the whole loop equals a run over the concatenated message list |
| `FlatDump.CutsDoNotMatter` | android/src/main/c/libnetlink.c:223-335 | Two cuts of the same messages into datagrams give the same calls and the same result |
| `FlatDump.FlatRunAppend` | android/src/main/c/libnetlink.c:223-335 | A run over a longer message list goes on from where the shorter one was left open |
| `FlatDump.DumpDelivers` | android/src/main/c/libnetlink.c:184-300 | The filter is called once, in order, with flags cleared, on exactly the messages from port 0 with the number of this dump that precede the first of type 3 (DONE), type 2 (ERROR) or negative result; that one decides the return value: 0 for a DONE of at least 20 bytes whose status has its sign bit clear, -1 for any other DONE or ERROR, else the result |
| `FlatDump.BadReceiptEnds` | android/src/main/c/libnetlink.c:242-320 | For any receipts: the first failure with an errno other than 4 and 11, or empty datagram, returns -1, and the first remnant makes the program exit, unless a message received before, or in the same datagram, has ended the dump |
| `FlatDump.SilentDump` | android/src/main/c/libnetlink.c:271-300 | With a dump file no call is made, and the first DONE or ERROR alone decides the result |
| `Attributes.ParseRtattrFlags` | android/src/main/c/libnetlink.c:368-384 | For arbitrary bytes the loop ends, and each slot up to max holds the first attribute of its type met by the RTA_OK/RTA_NEXT walk, inside the area, or null; slots above max are untouched |
| `Attributes.ParseRtattr` | android/src/main/c/libnetlink.c:363-366 | The same with no flag bits masked off |
| `Attributes.AddAttrL` | android/src/main/c/libnetlink.c:342-361 | In place, for every message and buffer for which the 32-bit sum does not wrap: an attribute that fits is appended at the aligned tail and the length grows by its aligned size; otherwise -1 and no byte changes |
| `Attributes.AppendedBytes` | android/src/main/c/libnetlink.c:342-361 | In bytes: an attribute whose aligned size ends by maxlen stands at the aligned tail with its length and type low byte first, the message length is the new end, and nothing else has changed; any other changes nothing |
| `Attributes.AddAttrHolds` | android/src/main/c/libnetlink.c:342-361 | After a successful append the message holds the old attributes and then the new one exactly when its 16-bit fields can describe it; in any case earlier bytes other than the length are unchanged |
| `Attributes.ParseHolds` | android/src/main/c/libnetlink.c:363-384 | Parsing an area that holds a list of attributes finds the payload of the first one of each type, or none |
| `Attributes.ParseHoldsMasked` | android/src/main/c/libnetlink.c:368-379 | With flag bits masked off, parsing finds the payload of the first attribute whose remaining type bits match |
| `Attributes.HoldsAppend` | android/src/main/c/libnetlink.c:342-384 | Areas that hold two lists of attributes back to back hold their concatenation |
| `Attributes.ParseWalks` | android/src/main/c/libnetlink.c:368-379 | Parsing an area that starts with some attributes finds the first of a type among them, and else what it finds from there on, whatever follows |
| `Attributes.BuildThenParse` | android/src/main/c/libnetlink.c:342-384 | After any run of appends on an aligned header, accepted and refused mixed: when the 16-bit fields can describe all accepted attributes, parsing gives for every type the first one, payload intact, or null; in any case it gives those accepted before the first that they cannot; the header is unchanged but for its length |
| `Attributes.RunReadsBackIff` | android/src/main/c/libnetlink.c:342-384 | After a run of appends of attributes of different types, parsing gives exactly what was accepted, for every type, if and only if each accepted attribute has a length that its 16-bit field can hold |
| `Attributes.ReadsBackIffDescribable` | android/src/main/c/libnetlink.c:355-356 | An attribute of a type not yet in the message, accepted after any others, reads back exactly when its length fits the 16-bit length field |
| `PrefixMatch.MatchIsPrefix` | android/src/main/c/ipneigh.c:112-138 | 0 exactly when the first bits of the two addresses agree in network order, on little-endian and on big-endian hosts, for 0 to 2048 bits; otherwise 1 when only the partial word differs, else -1 |
| `PrefixMatch.MatchLaws` | android/src/main/c/ipneigh.c:112-138 | For fixed bits an equivalence; a longer match implies a shorter one; the host byte order makes no difference |
| `PrefixMatch.WordMatch` | android/src/main/c/ipneigh.c:124-135 | The masked exclusive-or of the partial word vanishes exactly when the remaining bits agree |
| `PrefixMatch.BytesMatch` | android/src/main/c/ipneigh.c:120-122 | The comparison of whole words is a comparison of all their bits |
| `LinkAddress.FormatHex` | android/src/main/c/ipneigh.c:50-52 | In place: the colon-joined two-digit hex text truncated to blen-1 characters, terminated, and nothing outside the buffer |
| `LinkAddress.LlAddrN2a` | android/src/main/c/ipneigh.c:38-54 | Tunnel end points go to inet_ntop, which may refuse; every other address is printed as hex |
| `LinkAddress.HexColonRoundTrip` | android/src/main/c/ipneigh.c:50-52 | The untruncated text decodes to the same bytes |
| `LinkAddress.PrintedDecodesIff` | android/src/main/c/ipneigh.c:50-53 | The string left in the buffer is the text cut to blen-1 characters, and decodes to the address exactly when blen is at least 3 characters a byte |
| `FlushQueue.StillSentOnceIff` | android/src/main/c/ipneigh.c:158-247 | One entry: where the batches sent plus the pending bytes read back as the accepted entries, each once in order, they still do afterwards exactly when the flush, if the queue was full, had a clean reply: the send does not fail with EADDRNOTAVAIL, nothing is read or the recv fails with it, or the answer has no error or its first one leaves errno there |
| `FlushQueue.UncleanFlush` | android/src/main/c/ipneigh.c:169-174 | Any other reply: a send failing with EADDRNOTAVAIL gives the batch up unsent; the others leave it sent and still pending, with a failure reported |
| `FlushQueue.BatchLostOrRepeated` | android/src/main/c/ipneigh.c:169-174 | Inputs of both kinds: after an error answer of any other code, acknowledgement included, the next flush sends the same batch again |
| `FlushQueue.SentOnceThroughoutIff` | android/src/main/c/ipneigh.c:158-247 | Over any run: what was sent plus what is pending reads back as the accepted entries, each once in order as consecutively numbered delete requests, at every point of the run if and only if every flush has a clean reply |
| `FlushQueue.QueueConservation` | android/src/main/c/ipneigh.c:158-247 | Over any run from an empty queue the fill mark stays within the buffer, flushed counts the accepted entries, and the batches given up plus the pending bytes are those entries; the batches sent plus the pending bytes, read back by the NLMSG_OK/NEXT walk, are those entries in order, each once, as delete requests with consecutive sequence numbers mod 2^32, at every point exactly when every flush has a clean reply, and then at the end |
| `FlushQueue.RewrittenHeader` | android/src/main/c/ipneigh.c:241-245 | A queued entry is the accepted one with type DELNEIGH, flags REQUEST and the new sequence number, its body unchanged |
| `Neighbour.IpNeigh.PrintNeigh` | android/src/main/c/ipneigh.c:178-312 | For every message whose attributes, if it comes to reading or printing them, are what the code relies on: ignored, an error, filtered out, queued, or printed as its line; the running dump number never changes |
| `Neighbour.IpNeigh.QueueEntry` | android/src/main/c/ipneigh.c:234-247 | The flush branch in place on the shared buffer computes the queue step |
| `Neighbour.IpNeigh.FlushNow` | android/src/main/c/ipneigh.c:158-176 | The flush in place on the shared buffer and handle computes the flush step; the fill mark is 0 after success |
| `Neighbour.IpNeigh.HeaderTests` | android/src/main/c/ipneigh.c:199-210 | The tests on type, family, interface and state mask, bit for bit |
| `Neighbour.IpNeigh.AttrTests` | android/src/main/c/ipneigh.c:216-232 | The prefix and reference-count tests on the parsed attributes |
| `Neighbour.IpNeigh.PrintLine` | android/src/main/c/ipneigh.c:252-311 | The pieces are printed in order and make up the line |
| `Neighbour.IpNeigh.PrintFlag` | android/src/main/c/ipneigh.c:296-297 | A set flag is cleared as its name is printed, with a comma when others are left |
| `Neighbour.IpNeigh.ResetFilter` | android/src/main/c/ipneigh.c:314-319 | Everything zero but the state mask, all ones, and the interface |
| `Neighbour.IpNeigh.RequestShow` | android/src/main/c/ipneigh.c:321-343 | The show filter, and the dump request on the wire with its number remembered |
| `Neighbour.FlushStores` | android/src/main/c/ipneigh.c:241-245 | The copy and the three field stores write one restamped entry and nothing else |
| `StateNames.FlagTextIsJoin` | android/src/main/c/ipneigh.c:291-307 | For every 16-bit state the macros print the names of the flags set, in bit order, joined by commas, with one at the end exactly when a flag without a name is set too |
| `StateNames.StateTextDetermines` | android/src/main/c/ipneigh.c:291-307 | For states 1 to 0xFF the text determines the state |
| `StateNames.SingleFlag` | android/src/main/c/ipneigh.c:296-305 | A flag name alone is printed exactly for the state with that flag alone |
| `EntryFormat.LineSays` | android/src/main/c/ipneigh.c:252-308 | The line of every entry, read from its bytes: type 29 or 30, destination (attribute 1) by family 2, 10 or 17, interface in bytes 20 to 23, link address (attribute 2) by interface type, flags 0x80 and 0x08 of byte 26, and the names of the state in bytes 24 and 25 |
| `EntryFormat.DecideSays` | android/src/main/c/ipneigh.c:187-232 | What is done with any message under any filter, from its bytes: type 28 to 30, 28 bytes at least, family, interface, a state bit in common or a proxy or no state or DECnet, and then whether the first bits of the destination are those of the prefix and the count in the cache record is zero |
| `EntryFormat.PrintedSays` | android/src/main/c/ipneigh.c:187-308 | All that print_neigh prints of any message when not flushing: the warning about filtering by master device, and the line with its newline |
| `EntryFormat.ShowRequestBytes` | android/src/main/c/ipneigh.c:321-343 | The dump request byte for byte: 28 bytes, type 30, flags 0x301, the sequence number, zeros |
| `EntryFormat.ShowAccepts` | android/src/main/c/ipneigh.c:206-210 | The show filter accepts exactly the messages of type 28 to 30 with an entry in some known state other than NOARP, a proxy, or of DECnet |
| `ArpTable.ParseArp` | android/src/main/kotlin/com/example/lan_scan/scanner/LanDeviceScanner.kt:173-208 | The line loop: no host after a native failure, else the hosts of the lines in order |
| `ArpTable.KeptIff` | android/src/main/kotlin/com/example/lan_scan/scanner/LanDeviceScanner.kt:181-198 | A line yields a host exactly when it has more than five words, the first an address that is neither link-local nor loopback, and the last neither FAILED nor INCOMPLETE; the host is the first word with the fifth |
| `ArpTable.SplitCons` | android/src/main/kotlin/com/example/lan_scan/scanner/LanDeviceScanner.kt:182 | Splitting at runs of white space, which is space, tab, newline, carriage return, vertical tab and form feed, peels off one token at a time; a leading run gives an empty token |
| `ArpTable.LinesCons` | android/src/main/kotlin/com/example/lan_scan/scanner/LanDeviceScanner.kt:180 | Lines written one after another are read back one by one, whether they end in a newline, a carriage return, both, or the last in nothing |
| `ArpRoundTrip.LineTokens` | android/src/main/c/ipneigh.c:252-308 | The tokens of the line of a new entry, with and without a link address, whatever the router, proxy and state flags |
| `ArpRoundTrip.LineWords` | android/src/main/c/ipneigh.c:252-308 | The same from the bytes of the entry: address, interface, link address if any, router, proxy and the names of the state |
| `ArpRoundTrip.FirstWord` | android/src/main/c/ipneigh.c:61-84 | The printed address is what inet_ntop gives for the family and address of an IPv4 or IPv6 entry, hex cut to 255 characters for a packet address, and question marks for any other family |
| `ArpRoundTrip.EntryRoundTrip` | android/src/main/kotlin/com/example/lan_scan/scanner/LanDeviceScanner.kt:181-206 | An entry with link address and state 1 to 0xFF prints a line that splits into more than five tokens: the IP first, the link address fifth, the state last and readable; it is kept exactly when the state is neither FAILED nor INCOMPLETE alone and the IP is an address, not link-local and not loopback |
| `ArpRoundTrip.HostOfLine` | android/src/main/kotlin/com/example/lan_scan/scanner/LanDeviceScanner.kt:181-206 | Exactly which printed entries become hosts, by the bytes of the entry and the tests on its IP, link address absent or state 0 included |
| `ArpRoundTrip.KeptHostMac` | android/src/main/kotlin/com/example/lan_scan/scanner/LanDeviceScanner.kt:185-198 | A kept host carries the link address of its entry; the one kind of entry kept without one (router, proxy and a state) carries the word proxy instead |
| `ArpRoundTrip.LineNoBreak` | android/src/main/c/ipneigh.c:252-308 | The printed line of a complete entry contains no line break, so it is read as one line |
| `ArpRoundTrip.UnbrokenLine` | android/src/main/c/ipneigh.c:252-308 | When the texts of addresses and interfaces hold no line break, neither does the line of any entry, whatever it lacks and whatever its flags |
| `Pipeline.ParsedIsFound` | android/src/main/kotlin/com/example/lan_scan/scanner/LanDeviceScanner.kt:179-208 | For messages that are skipped, filtered out or printed as one line: the text parses to one optional host for each accepted entry, in order; a complete entry becomes the host that HostOfLine says, any other (no destination, DELNEIGH, unknown state bits) what the parser makes of its own line alone |
| `Pipeline.DumpToHosts` | android/src/main/c/ipneigh.c:321-349 | End to end: however the kernel cuts its answer into datagrams, the callback sees the messages before the first DONE or ERROR, that one decides the result, and the text written parses to exactly the hosts of the accepted entries, complete or not; nothing is asked of later messages |
| `Pipeline.PrintDelivered` | android/src/main/c/libnetlink.c:296-300 | print_neigh called on the delivered messages one after another returns what the callback of the dump returns and writes the text that is parsed |
| `Pipeline.BuiltEntryFields` | android/src/main/c/libnetlink.c:342-384 | An entry built with addattr_l shows to print_neigh the first accepted attribute of each type: all of them if the 16-bit fields can describe them, and in any case those before the first that they cannot |
| `AndroidEnv.NoTunnels` | android/src/main/c/ll_map.c:76-85 | With the cache that nothing fills no interface is a tunnel, so every link address of 1 to 21 bytes prints in full as hex |
| `AndroidEnv.NamesAreWords` | android/src/main/c/ll_map.c:52-67 | With that cache every interface name is a word, made up or not, when the names of the system are |
| `AndroidEnv.OrdinaryIsComplete` | android/src/main/c/ipneigh.c:252-308 | What the round trip needs of an entry comes down to its own fields: new, destination, interface, known state flags, link address of 1 to 21 bytes |
| `AndroidEnv.ProgramDump` | android/src/main/c/ipneigh.c:321-349 | The dump end to end with the filter and the cache of the program, its result by the bytes of the ending message: asked of the messages is only that an entry is as long as its header and has no empty address to print as hex, and of the system that interface names are words and inet_ntop writes no line break |
| `Checksum.CalculateChecksum` | ios/Classes/ICMPPing/ICMPPing.swift:151-164 | The loop with trapping 32-bit addition and the two folds |
| `Checksum.NeverTraps` | ios/Classes/ICMPPing/ICMPPing.swift:152-158 | Up to 65537 words the sum cannot overflow |
| `Checksum.FinishIsCanon` | ios/Classes/ICMPPing/ICMPPing.swift:160-163 | Two folds suffice: the result is the complement of the one's complement residue |
| `Checksum.ChecksumIsDefined` | ios/Classes/ICMPPing/ICMPPing.swift:151-164 | For even length the bytes stored are those of the big-endian definition in section 1 of RFC 1071, although the words are summed in host order (section 2(B)) |
| `Checksum.StoredChecksumVerifies` | ios/Classes/ICMPPing/ICMPPing.swift:143-147 | With the checksum in its zeroed field the checksum of the packet is 0 |
| `Checksum.OddLengthIff` | ios/Classes/ICMPPing/ICMPPing.swift:154 | For odd length the last byte is left out, which is right exactly when it is zero |
| `Checksum.CreateIcmpPacket` | ios/Classes/ICMPPing/ICMPPing.swift:140-149 | The echo request: type 8, code 0, the defined checksum, the identifier, sequence 0; it verifies |
| `ScanRange.MaskGivesNetwork` | ios/Classes/Scanner/LanDeviceScanner.swift:29-33 | Masking with 2^32-2^h clears the low h bits: the network address |
| `ScanRange.AddressKtValue` | android/src/main/kotlin/com/example/lan_scan/scanner/LanDeviceScanner.kt:64-78 | In 32-bit signed arithmetic the address is, as an unsigned number, network + 1 + index modulo 2^32, for prefix lengths 1 to 32 |
| `ScanRange.AddressSwValue` | ios/Classes/Scanner/LanDeviceScanner.swift:29-40 | In 64-bit arithmetic it is network + 1 + index, for all prefix lengths |
| `ScanRange.HostRange` | android/src/main/kotlin/com/example/lan_scan/scanner/LanDeviceScanner.kt:63-66 | The hosts of a subnet, defined by quotient and remainder, are the addresses strictly between its network and broadcast address |
| `ScanRange.Stride` | android/src/main/kotlin/com/example/lan_scan/scanner/LanDeviceScanner.kt:76-78 | The loop of a worker visits first + t, first + t + step, ... below the count, in 32 bits |
| `ScanRange.WorkerLoop` | android/src/main/kotlin/com/example/lan_scan/scanner/LanDeviceScanner.kt:76-78 | The worker of index t visits the addresses of its indices |
| `ScanRange.IndicesMember` | android/src/main/kotlin/com/example/lan_scan/scanner/LanDeviceScanner.kt:76 | An index is in a worker's progression exactly when it is in range and congruent to the worker |
| `ScanRange.OneWorker` | android/src/main/kotlin/com/example/lan_scan/scanner/LanDeviceScanner.kt:74-76 | Each index belongs to exactly one worker |
| `ScanRange.ExactCoverage` | ios/Classes/Scanner/LanDeviceScanner.swift:36-40 | An address is visited by some worker exactly when it is a host of the subnet |
| `ScanRange.VisitedOnce` | ios/Classes/Scanner/LanDeviceScanner.swift:36-40 | No address is visited twice, by one worker or by two |
| `ScanRange.KotlinVisits` | android/src/main/kotlin/com/example/lan_scan/scanner/LanDeviceScanner.kt:63-80 | For prefix lengths from 2 the Kotlin workers visit the same addresses in the same order as the reference |
| `ScanRange.VisitedOnceKt` | android/src/main/kotlin/com/example/lan_scan/scanner/LanDeviceScanner.kt:63-80 | For every prefix length, saturated counts included, the Kotlin scan visits no address twice, by one worker or by two |
| `KotlinRun.ScannedIsHost` | android/src/main/kotlin/com/example/lan_scan/scanner/LanDeviceScanner.kt:63-80 | From prefix length 2 an address is on the list of some worker exactly when it is a host of the subnet |
| `ScanRange.SwiftVisits` | ios/Classes/Scanner/LanDeviceScanner.swift:29-40 | For every prefix length the Swift workers do |
| `ScanRange.KotlinCoversIff` | android/src/main/kotlin/com/example/lan_scan/scanner/LanDeviceScanner.kt:63-80 | The Kotlin scan covers its subnet exactly when the prefix length is at least 2: below that the count saturates, and at 0 the shift distance 32 acts as 0 |
| `ScanRange.FourBytesIff` | android/src/main/kotlin/com/example/lan_scan/scanner/LanDeviceScanner.kt:79-80 | The minimal two's complement form of an address has four bytes exactly outside [-2^23, 2^23), and is then its four octets |
| `ScanRange.EveryHostHasFourBytesIff` | android/src/main/kotlin/com/example/lan_scan/scanner/LanDeviceScanner.kt:79-80 | For prefix lengths from 2: every host of a subnet gets four bytes exactly when there are no hosts or the address keeps the larger of the subnet size and 2^23 away from both ends of the address space |
| `ScanWorkers.StepCounts` | android/src/main/kotlin/com/example/lan_scan/scanner/LanDeviceScanner.kt:76-87 | One step of one worker loses or duplicates no address: it stays listed, or is posted once if it answered, or is dropped; dropped while active only if it did not answer |
| `ScanLists.StartCount` | ios/Classes/Scanner/LanDeviceScanner.swift:36-40 | At the start every host of the subnet is on exactly one list once, and no other address is on any |
| `KotlinRun.Stream` | android/src/main/kotlin/com/example/lan_scan/scanner/LanDeviceScanner.kt:69-103 | In reachability mode with no stop, in every interleaving and for every prefix length: distinct addresses of the scan that answer, then exactly one null; every such address if there is no timeout either; from prefix length 2 the addresses of the scan are the hosts of the subnet |
| `KotlinRun.OlderStream` | android/src/main/kotlin/com/example/lan_scan/scanner/LanDeviceScanner.kt:69-162 | On older versions, in every interleaving, whatever answers and for every prefix length: only hosts of the neighbour table and nulls, no host more often than the table has it; with no stop each exactly as often, and then exactly one null, timed out or not |
| `KotlinRun.EventsOf` | android/src/main/kotlin/com/example/lan_scan/scanner/LanDeviceScanner.kt:69-162 | In any run of either mode, stopped or timed out, an address is posted by a worker at most once, and only if it is on the scan and answers; the mode that reads the table posts none this way, whatever answers |
| `KotlinRun.HeedsStop` | android/src/main/kotlin/com/example/lan_scan/scanner/LanDeviceScanner.kt:77-138 | After a stop or the timeout, in every interleaving: an address is posted only by the workers already past their last isActive check with it, exactly those once they are through; the workers make at most two steps each on average and none probes, so the rest of the run does not depend on who answers |
| `KotlinRun.TableHeedsStop` | android/src/main/kotlin/com/example/lan_scan/scanner/LanDeviceScanner.kt:147-156 | After a stop a host of the table is posted only by the coroutines already past their isActive check with it |
| `KotlinRun.NullsOfARun` | android/src/main/kotlin/com/example/lan_scan/scanner/LanDeviceScanner.kt:95-116 | In either mode each stop posts a null, and the body one more exactly when it was past its last isActive check at the first stop |
| `KotlinRun.CompletesOnlyInTheMiddle` | android/src/main/kotlin/com/example/lan_scan/scanner/LanDeviceScanner.kt:79-80 | A scan with no timeout and no stop completes only if every address of the scan has four bytes: from prefix length 2, only in a subnet clear of both ends of the address space |
| `KotlinRun.NeverFails` | android/src/main/kotlin/com/example/lan_scan/scanner/LanDeviceScanner.kt:79-80 | In such a subnet, and at prefix lengths 0 and 1 when every address of the scan has four bytes, no run fails on an address |
| `KotlinRun.RunsAreBounded` | android/src/main/kotlin/com/example/lan_scan/scanner/LanDeviceScanner.kt:69-162 | Apart from stops every run is bounded by the work at hand |
| `KotlinRun.NeverStuck` | android/src/main/kotlin/com/example/lan_scan/scanner/LanDeviceScanner.kt:72-162 | In any run, while the body is not through, a worker, a coroutine of the table or the body can step |
| `SwiftRun.NilsAreConserved` | ios/Classes/Scanner/LanDeviceScanner.swift:57-77 | With test and clear of the handle as one step, over any interleaving of starts, stops and ends: nils posted plus the handle still there equal the starts that found no handle |
| `SwiftRun.OneScan` | ios/Classes/Scanner/LanDeviceScanner.swift:27-77 | The case of the program, with test and clear as one step: one start, any number of stops: exactly one nil once the scan is stopped or its body has ended, none before; hosts at most once and only if they answer; without a stop the nil is last and every answering host comes before it |
| `SwiftRun.OneScanHeedsStop` | ios/Classes/Scanner/LanDeviceScanner.swift:36-76 | The same for a stop at any point: afterwards an address is posted only by the workers already past their last cancellation check with it, exactly those once they are through; the workers make at most two steps each on average and none pings |
| `SwiftRun.StopCancels` | ios/Classes/Scanner/LanDeviceScanner.swift:69-76 | For callers that start again too: a stop cancels the body of the handle, which then posts an address at most as often as its workers were past their last check with it |
| `SwiftRun.OrderlyRun` | ios/Classes/Scanner/LanDeviceScanner.swift:27-77 | A fact about the class for callers that start again: if every start is made when earlier bodies have ended, each body clears no handle but its own and each start is answered by one nil or still has its handle |
| `SwiftRun.PrematureNil` | ios/Classes/Scanner/LanDeviceScanner.swift:57-63 | A fact about the class: if a start is made while an earlier body is running, some run has that body post the nil and clear the new handle, after which no stop cancels the new body |
| `SwiftRace.TwoNilsIff` | ios/Classes/Scanner/LanDeviceScanner.swift:57-77 | With test and clear as two steps, one scan and any number of stops: one nil, or two exactly when the end of the body and a stop are both between their test and their clear at once |
| `SwiftRace.TwoNils` | ios/Classes/Scanner/LanDeviceScanner.swift:57-77 | An interleaving with two nils |
| `MplsPrinter.MplsNtop1` | android/src/main/c/mpls_ntop.c:9-37 | In place, on an endless stack of entries in network order: succeeds exactly when there is a bottom and the joined labels are shorter than the buffer, and then holds them, terminated; never writes past the buffer; ends even if no bottom is ever met |
| `MplsPrinter.EntryBits` | android/src/main/c/mpls_ntop.c:16-24 | Label and bottom-of-stack bit in the bytes of an entry in network order |
| `MplsPrinter.StackReads` | android/src/main/c/mpls_ntop.c:16-33 | Split at the slashes, the text is the labels in decimal, the top one first |
| `MplsPrinter.TextDeterminesLabels` | android/src/main/c/mpls_ntop.c:16-33 | Equal texts have the same number of labels and the same labels |
| `DnetPrinter.DnetNtop1` | android/src/main/c/dnet_ntop.c:37-86 | In place: the first min(len, full) characters of the canonical text, terminator included, and nothing beyond; null for a length other than 2 |
| `DnetPrinter.DoDigit` | android/src/main/c/dnet_ntop.c:19-34 | One decimal digit, leading zeros skipped, the value reduced by what was printed |
| `DnetPrinter.FullTextRoundTrip` | android/src/main/c/dnet_ntop.c:37-86 | The full text up to its terminator decodes to the address |
| `DnetPrinter.NoLeadingZeros` | android/src/main/c/dnet_ntop.c:26-31 | Area and node are printed without leading zeros |
| `DnetPrinter.DnNtohs` | android/src/main/c/dnet_ntop.c:8-17 | The first byte is the low one and the second the high one, on any host |
| `IpxPrinter.IpxNtop1` | android/src/main/c/ipx_ntop.c:26-57 | In place, from the network number in network order: the first min(len, 22) characters of eight hex digits, a dot, twelve hex digits and the terminator, and nothing beyond |
| `IpxPrinter.DoDigit` | android/src/main/c/ipx_ntop.c:9-24 | One hex digit of the value, or a stop at the end of the buffer |
| `IpxPrinter.FullTextRoundTrip` | android/src/main/c/ipx_ntop.c:26-57 | The full text decodes to network and node |
| `IpxPrinter.FullTextDetermines` | android/src/main/c/ipx_ntop.c:26-57 | Equal texts come from equal network numbers, octet for octet as they lie in memory, and equal nodes |
| `IpxPrinter.FullTextChars` | android/src/main/c/ipx_ntop.c:9-57 | Upper-case hex digits, a dot after the eighth, and the terminator |
| `DnsName.WriteName` | android/src/main/kotlin/com/example/lan_scan/networkUtils/MDNSResolver.kt:21-33 | The index-scanning loop writes each label after its length byte, empty labels too, and a zero |
| `DnsName.AppendLabels` | ios/Classes/NetworkUtils/MDNSResolver.swift:172-177 | The loop over the split name, trapping on a label above 255 |
| `DnsName.EncodersAgreeIff` | android/src/main/kotlin/com/example/lan_scan/networkUtils/MDNSResolver.kt:21-33 | For every dotted name the Kotlin form is two bytes longer than the name, and the Swift encoder writes the same bytes exactly when no label is empty |
| `DnsName.DecodeNameKt` | android/src/main/kotlin/com/example/lan_scan/networkUtils/MDNSResolver.kt:35-46 | Labels up to a zero or the end, signed length bytes, decoded by the platform; an exception for a negative length, a label past the data, or no label at all; else the dotted name |
| `DnsName.DecodeNameSw` | ios/Classes/NetworkUtils/MDNSResolver.swift:188-210 | Labels up to a zero, the end or one that is no UTF-8, each with a dot after it; a trap for a label past the data |
| `DnsName.DecodeEncoded` | android/src/main/kotlin/com/example/lan_scan/networkUtils/MDNSResolver.kt:35-46 | Wherever encoded ASCII labels stand in a packet, decoding from there finds them, for any decoder that reads ASCII |
| `DnsName.LabelsIff` | ios/Classes/NetworkUtils/MDNSResolver.swift:188-210 | Decoding gives a list of labels exactly when they stand there one after another, each with a length byte below the limit and inside the data, up to a zero, the end, or bytes that do not decode |
| `Mdns.DnsRequestKt` | android/src/main/kotlin/com/example/lan_scan/networkUtils/MDNSResolver.kt:48-56 | The request, its id cut to 16 bits |
| `Mdns.DnsRequestSw` | ios/Classes/NetworkUtils/MDNSResolver.swift:162-186 | The request, or a trap for an id or label length that does not fit |
| `DnsQuery.RequestAsks` | android/src/main/kotlin/com/example/lan_scan/networkUtils/MDNSResolver.kt:48-56 | Read by sections 4.1.1 and 4.1.2 of RFC 1035, the request has the given id, no flag, one question and no record; the question is for the labels, type 12 (PTR), class 1 (IN), and nothing follows it |
| `DnsQuery.AddressAsks` | ios/Classes/NetworkUtils/MDNSResolver.swift:157-186 | For an address the name asked for is its four octets in decimal, the last one first, under in-addr.arpa |
| `Mdns.RequestRoundTrip` | ios/Classes/NetworkUtils/MDNSResolver.swift:162-210 | For every proper name both splits give its labels, the encoding is two bytes longer than the name, and either decoder at byte 12 of the request gives the labels back |
| `Mdns.ReverseNames` | ios/Classes/NetworkUtils/MDNSResolver.swift:157-160 | Both platforms build the same reversed name, six proper labels |
| `Mdns.RequestIdCollides` | ios/Classes/NetworkUtils/MDNSResolver.swift:147-155 | Two addresses share a request id exactly when their last two octets agree or are (a, 255) and (a+1, 0) |
| `Mdns.SameIdIff` | android/src/main/kotlin/com/example/lan_scan/networkUtils/MDNSResolver.kt:65 | Both platforms send the same id exactly when the last two octets are both below 128 or both not; the Swift id fits 16 bits |
| `Mdns.OffsetIsStartIff` | android/src/main/kotlin/com/example/lan_scan/networkUtils/MDNSResolver.kt:73-75 | Without a question the computed offset is the start of the answer data exactly when the owner name is as long as the uncompressed name asked for; with the question echoed, exactly when it is two bytes |
| `Mdns.AnswerIsTarget` | ios/Classes/NetworkUtils/MDNSResolver.swift:112-128 | Decoding an uncompressed target finds its labels, and what comes before the first dot is the first one |
| `Mdns.ResolveKt` | android/src/main/kotlin/com/example/lan_scan/networkUtils/MDNSResolver.kt:63-77 | The id test, the offset and the decoder on the receive buffer |
| `Mdns.ChannelRead` | ios/Classes/NetworkUtils/MDNSResolver.swift:98-130 | The id test, the offset, the decoder and the cut at the first dot on a packet |
| `Mdns.IgnoredIff` | android/src/main/kotlin/com/example/lan_scan/networkUtils/MDNSResolver.kt:65-71 | A response is ignored exactly when both of its first bytes differ from those of the id, the third octet times 255 plus the fourth, of signed octets in Kotlin; Swift traps on less than two bytes, and on less than six when not ignored |
| `Mdns.NamedByKtIff` | android/src/main/kotlin/com/example/lan_scan/networkUtils/MDNSResolver.kt:73-77 | Kotlin returns a name exactly when at the computed place there is at least one label, none above 127 bytes or past the data, and then the labels joined by dots |
| `Mdns.NamedBySwIff` | ios/Classes/NetworkUtils/MDNSResolver.swift:112-128 | Swift returns what comes before the first dot of the labels there, none above 255 bytes or past the data |
| `Mdns.TargetIsReturned` | android/src/main/kotlin/com/example/lan_scan/networkUtils/MDNSResolver.kt:63-77 | For both response forms, whatever follows the target, Kotlin returns its dotted name and Swift its first label |
| `DottedQuad.AddressRoundTrip` | ios/Classes/NetworkUtils/Wireless.swift:107-124 | Four octets as text, read as a number and printed again, are the same text, and a 32-bit number printed and read is the same number |
| `DottedQuad.PrintQuad` | ios/Classes/Scanner/LanDeviceScanner.swift:79-85 | getIPAddress prints the four octets of a 32-bit number |
| `DottedQuad.CalculateCIDR` | ios/Classes/NetworkUtils/Wireless.swift:192-210 | The loop counts the ones of the four components; none unless there are four, all bytes, with a sign or not |
| `DottedQuad.BinaryOnes` | ios/Classes/NetworkUtils/Wireless.swift:201-203 | Counting the character 1 in the binary text counts the one bits |
| `DottedQuad.MaskRoundTripIff` | ios/Classes/NetworkUtils/Wireless.swift:192-210 | The prefix length of a mask is its number of ones, and the scanner's shift gives the mask back exactly when it is contiguous |
| `HashList.HlistAddHead` | android/src/main/c/list.h:100-108 | In place: the node is put in front of the chain, back pointers right |
| `HashList.HlistDel` | android/src/main/c/list.h:91-98 | In place, through the back pointer: the node is taken out and the rest of the chain joined up |
| `HashList.BackPointers` | android/src/main/c/list.h:87-98 | In a chain what the back pointer of a node points at is that node |
| `HashList.Apart` | android/src/main/c/list.h:83-112 | Chains of two heads share no node |
| `HashList.SameChain` | android/src/main/c/list.h:83-112 | A head has one chain |
| `LlMap.IdxMap.Add` | android/src/main/c/list.h:100-108 | The table with one more live node, last in first; only the node and its bucket are touched |
| `LlMap.IdxMap.Remove` | android/src/main/c/list.h:91-98 | The table without one node; only its bucket is touched |
| `LlMap.IdxMap.GetByIndex` | android/src/main/c/ll_map.c:37-50 | The walk through one bucket finds the most recently added live node of the index, or none |
| `LlMap.FindInBucket` | android/src/main/c/ll_map.c:40-47 | Looking through the bucket of an index is looking through all live nodes |
| `LlMap.FindIsLatest` | android/src/main/c/ll_map.c:37-50 | That lookup is a lookup in the map from each index to its most recent entry |
| `LlMap.IdxMap.IndexToType` | android/src/main/c/ll_map.c:76-85 | -1 for index 0 or one that no node has, else the type of the latest node of the index |
| `LlMap.IdxMap.IdxN2a` | android/src/main/c/ll_map.c:52-67 | An asterisk for 0, the name of the latest node of the index, the name the system knows, or if and the signed number, which always fits |
| `LlMap.FallbackDetermines` | android/src/main/c/ll_map.c:64 | The made-up name tells the index, also above 2^31 |
| `CircularList.ListHead.constructor` | android/src/main/c/list.h:15-19 | An initialised head is an empty ring |
| `CircularList.ListAdd` | android/src/main/c/list.h:31-34 | Push front on the ring, in place |
| `CircularList.ListAddTail` | android/src/main/c/list.h:36-39 | Push back on the ring, in place |
| `CircularList.ListAddBetween` | android/src/main/c/list.h:21-29 | Insertion between two neighbours, in place |
| `CircularList.ListDel` | android/src/main/c/list.h:41-50 | Removal of one element, in place; its own pointers stay |
| `CircularList.Inverse` | android/src/main/c/list.h:11-50 | next and prev undo each other at the head and every element and stay on the ring |
| `CircularList.ForEach` | android/src/main/c/list.h:67-70 | The forward traversal visits the elements in order |
| `CircularList.ForEachReverse` | android/src/main/c/list.h:78-81 | The reverse traversal visits them in the opposite order |
| `CircularList.ForEachSafe` | android/src/main/c/list.h:72-76 | Whichever elements the body deletes, the safe traversal visits every element in order and leaves the ring of those kept |

## Left out

- Sockets, pipes, JNI, `setsockopt`, `exit` and text on stderr: `recvmsg` is a sequence of receipts, `send` an output log with the kernel's reply as a parameter, the exit over a remnant an outcome of its own.
- The interrupted-dump mark, which only chooses a stderr message, and the bytes written to a dump file; that a dump file suppresses the filter is modelled.
- `inet_ntop`, `if_indextoname`, `InetAddress` parsing and its link-local and loopback tests: abstract functions; the printed IP and interface names only need to be free of white space.
- Statistics in `print_neigh` and host-name resolution, which are constantly off, and the address families that the Android build does not print.
- What `do_show_or_flush` does after a failed dump, which is to exit.
- Header reads made before a length check only for diagnostics: they are modelled after the check.
- Several filters in one dump: the loop over filters is modelled, the flat result is about one filter, the only number the program uses.
- FlushQueue.QueueConservation: requires every message to fit the flush buffer, as the code does; the buffer itself is supplied by the caller, since nothing in the program switches flushing on.
- LlMap.IdxMap.IdxN2a: the name is returned as a string, not as a pointer to a literal, to the cache entry or to the caller's buffer.
- That no host event follows the null of a stopped scan: the code does not settle it.
- ArpTable.SplitCons: white space is the ASCII white space of `\s`.
- NetBIOS tables, host name suffixes, MacFinder, Wi-Fi status, Flutter channels, the Dart code and the example app.
- Exactly-once completion of the ICMP ping tool: the code does not settle it under interleaving.
- Neighbour.IpNeigh.PrintNeigh: requires what the code relies on without a check, and only of messages that get so far: a destination of at most 256 bytes when a prefix is wanted, a cache record of full size when it is read, and an address of at least one byte when it is printed as hex.
- Attributes.AddAttrL: does not model a 32-bit sum of message length and attribute size that wraps; the code relies on it not to.
- LlMap.IdxMap.Add: inserting into the interface cache is left to the caller, since nothing in the program fills it; `AndroidEnv` is about the cache as it is, empty.
- KotlinRun.Stream: assumes, as `KotlinRun.OlderStream` does, that a probe, a look-up of a host and the reading of the table return.
- SwiftRun.NilsAreConserved: takes the test and clear of the handle as one step; `SwiftRace` is about one scan without that.
- SwiftRun.OneScan: takes the test and clear of the handle as one step, and the handle as stored before the body reaches its end; every host encodes as JSON.
- SwiftRun.OrderlyRun: takes the test and clear of the handle as one step.
- DnsName.WriteName: names are ASCII, so that a character is one byte; the one caller passes the reversed name of an address.
- DnsName.AppendLabels: labels are ASCII, for the same reason.
- DnsName.EncodersAgreeIff: about ASCII names, for the same reason.
- Mdns.DnsRequestKt: names are ASCII, for the same reason.
- Mdns.DnsRequestSw: names are ASCII, for the same reason.
- DnsName.DecodeNameKt: the platform's decoding of the bytes of a label is a parameter, of which only its reading of ASCII is used; so it is in `DnsName.DecodeNameSw`, where it may refuse a label.
- Mdns.TargetIsReturned: targets are uncompressed and ASCII, and the response carries the id that was sent; the id test, which rejects only when both bytes differ, is in the model.
- DottedQuad.AddressRoundTrip: about four octets; shifts of larger numbers in a dotted text are not modelled.
