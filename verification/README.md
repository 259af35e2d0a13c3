# A verified model of the 5G core prototype

This project models the parts of the prototype where correctness is not obvious from one body, and
proves what they promise, for every input, every run or every interleaving.

* **JSON codec** (`JsonValue`, `JsonOrder`, `JsonString`, `JsonGrammar`, `JsonSyntax`, `JsonAccepted`,
  `JsonLanguage`, `JsonDump`, `JsonRoundTrip`, `JsonParser`, `JsonMulti`). `JsonSyntax` writes RFC 8259
  down as syntax trees with their texts and values. `JsonGrammar` is a reader on positions, proved in
  `JsonAccepted` and `JsonLanguage` to accept exactly those texts; `JsonParser` is the class with its
  index, sticky error and push-backs, proved to refine that reader; `JsonDump` holds the printer.
  Strings are byte sequences, and reading one place behind the end gives NUL, as the code relies on.
* **Session control plane** (`Telecom`, `IpPool`, `Upf`, `Smf`, `Amf`, `ControlPlane`,
  `SessionTables`, `Simulator`). The three functions are classes whose handlers are proved against
  functions on their tables; `ControlPlane` and `SessionTables` interleave those functions for any
  number of UEs and prove what every run keeps; `Simulator` drives the three objects and keeps that
  invariant.
* **Wire layer** (`Wire`, `Packet`, `Security`, `Network`, `Link`, `Worker`). The packet buffer is an
  array changed in place, reads and writes may be split anywhere by the kernel, the cipher is an
  inverse pair with bounded growth and the MAC a function.
* **Base64** (`Base64Alphabet`, `Base64`, `Base64Reference`, `Base64Stream`). The two resumable state
  machines as functions on one byte, proved against the arithmetic of RFC 4648, and the loops over
  buffers proved against them.
* **Load-balancer cache** (`Balancer`, `BalancerReplies`). The lock regions, channel operations and creations of
  `GetServers`, `Reset` and the service loops as small steps of arbitrarily many goroutines.
* **Query strings** (`Query`). `Decimal`, `Characters` and `Splitting` serve all parts.

`dafny verify dfyconfig.toml` checks everything.

## What the proofs found

* The downlink id that the RAN announces never reaches the UPF: `src/smf.cpp:372` overwrites the
  value read at line 361 with a field that is always 0 (`ControlPlane.AnnouncedDownlinkIsLost`).
* A handover uses the id after the UE's own for its indirect tunnel and later erases it, so a UE that
  holds that id loses its uplink entry (`Upf.HandoverEffect`, `SessionTables.Undisturbed` and
  `SessionTables.UplinkExact` have the exact conditions).
* UEs outside the address pool all share the empty address (`Upf.SharedAddress`).
* A text item is cut at its first NUL byte on the wire (`Wire.ReceivedUnchanged`).
* A length prefix larger than the buffer would be read past its end (`Network.ReadPacket` reports it;
  it does not occur between peers that use `write_sctp_pkt`).
* `parse_multi` keeps an empty string for a string literal that fails
  (`JsonMulti.FailedDocument`).
* `base64_decode_block` reads one cell behind the decoded bytes; in `decodeBase64` that is the
  string's terminator (`Base64Stream.DecodeIntoString`).
* The cipher and the MAC ignore the session keys passed to them, which is why the model's suite has
  no key argument; the UPF passes the three tunnel ids to `UeContext::init` in rotated order, which
  is harmless because they are equal.

## Model

| member | source | states |
|---|---|---|
| JsonLanguage.Language | src/ppconsul/ext/json11/json11.cpp:644-744 | for every text and both strategies, the parser accepts exactly the texts that a syntax tree of RFC 8259 yields (blanks, comments in the second strategy, literals, numerals, strings, arrays, objects, written with character literals), nested at most to level 200, and returns the value the tree stands for; a legal text nested deeper fails for its depth |
| JsonAccepted.TextRead | src/ppconsul/ext/json11/json11.cpp:644-744 | one half: the text of every legal tree is accepted with its value, or rejected for its depth alone |
| JsonLanguage.TextOf | src/ppconsul/ext/json11/json11.cpp:644-744 | the other half: every accepted text is the text of a legal tree |
| JsonAccepted.TreeRead | src/ppconsul/ext/json11/json11.cpp:644-728 | a legal value inside any text, at any depth, is read up to exactly its end |
| JsonAccepted.BlanksSkipped | src/ppconsul/ext/json11/json11.cpp:377-436 | white space and comments, exactly as the grammar has them, are skipped and nothing else |
| JsonAccepted.CharsRead | src/ppconsul/ext/json11/json11.cpp:480-567 | plain bytes, the eight short escapes and Unicode escapes with digits in either case are read as what they stand for |
| JsonAccepted.NumberRead | src/ppconsul/ext/json11/json11.cpp:573-622 | every numeral with sign, fraction and exponent is read as the number it denotes, exactly |
| JsonLanguage.OneEscape | src/ppconsul/ext/json11/json11.cpp:511-546 | a Unicode escape with digits in either case, a lone surrogate included, becomes bytes that an independent UTF-8 decoder reads as its value |
| JsonLanguage.TwoEscapes | src/ppconsul/ext/json11/json11.cpp:532-538 | for every code point above 0xFFFF the escapes of its two UTF-16 units become bytes that an independent UTF-8 decoder reads as that code point |
| JsonString.CombineUnits | src/ppconsul/ext/json11/json11.cpp:532-538 | the two UTF-16 units of every code point above 0xFFFF are put together to that code point |
| JsonRoundTrip.RoundTrip | src/ppconsul/ext/json11/json11.cpp:53-142 | for every value without non-integral numbers and both strategies, the printed text parses if and only if the deepest node is at level 200 or less, then to a value equal under `operator==`, and otherwise the depth limit is the error |
| JsonRoundTrip.PrintedTree | src/ppconsul/ext/json11/json11.cpp:53-142 | the printed text of every value is the text of a legal syntax tree that stands for the value, nested as deep as the value |
| JsonRoundTrip.ValueReadsBack | src/ppconsul/ext/json11/json11.cpp:644-728 | inside any text and at any depth, reading the text of a value consumes exactly that text and yields the value, or the depth error |
| JsonRoundTrip.EscapedReadsBack | src/ppconsul/ext/json11/json11.cpp:77-112 | the escapes of an arbitrary byte string, controls and U+2028/U+2029 included, are a legal string body and read back to exactly those bytes |
| JsonRoundTrip.IntReadsBack | src/ppconsul/ext/json11/json11.cpp:573-622 | every 32-bit integer text reads back as that number, as an int or, from ten digits on, as a double |
| JsonRoundTrip.RereadEq | src/ppconsul/ext/json11/json11.cpp:302-309 | the int or double chosen on re-reading is equal to the original under `operator==`, through arrays and objects |
| JsonDump.DumpString | src/ppconsul/ext/json11/json11.cpp:77-112 | the in-place loop appends exactly the quoted, escaped text that is proved to read back |
| JsonDump.Dump | src/ppconsul/ext/json11/json11.cpp:53-142 | appends exactly the text of the value to the output and changes nothing before it |
| JsonDump.DumpItems | src/ppconsul/ext/json11/json11.cpp:114-124 | the array loop with its first-item flag appends the bracketed, comma-separated items |
| JsonDump.DumpMembers | src/ppconsul/ext/json11/json11.cpp:126-138 | the object loop appends the members in key order |
| JsonString.Utf8RoundTrip | src/ppconsul/ext/json11/json11.cpp:455-474 | an independent UTF-8 decoder gets every code point back from the encoder, surrogates as three bytes included, and knows where it ends (section 3 of RFC 3629) |
| JsonParser.EncodeUtf8 | src/ppconsul/ext/json11/json11.cpp:455-474 | appends the UTF-8 form, and nothing for the negative "no code point" value |
| JsonParser.ReadUnit | src/ppconsul/ext/json11/json11.cpp:532-542 | an escape that completes no pair flushes the pending code point: the one-slot machine stays in step with decode-then-encode |
| JsonParser.ReadPair | src/ppconsul/ext/json11/json11.cpp:532-538 | a low surrogate after a pending high one becomes one code point above 0xFFFF |
| JsonParser.ReadEnd | src/ppconsul/ext/json11/json11.cpp:489-492 | at the closing quote the machine has produced the pieces, greedily paired and encoded |
| JsonParser.JsonParser.UnicodeEscape | src/ppconsul/ext/json11/json11.cpp:511-546 | one escape step of the machine keeps the correspondence or fails with the error of the reference reader |
| JsonParser.JsonParser.ParseStringHere | src/ppconsul/ext/json11/json11.cpp:480-567 | the loop returns the literals plus the UTF-8 encoding of the greedily paired UTF-16 units, stops behind the quote, and on failure returns the empty string and the first error |
| JsonParser.JsonParser.Fail | src/ppconsul/ext/json11/json11.cpp:361-371 | the first error is the one kept |
| JsonParser.JsonParser.ConsumeWhitespace | src/ppconsul/ext/json11/json11.cpp:377-380 | the index moves to the next byte that is not white space, never past the end |
| JsonParser.JsonParser.ConsumeComment | src/ppconsul/ext/json11/json11.cpp:386-418 | both comment forms, with the position after them or the right error |
| JsonParser.JsonParser.ConsumeGarbage | src/ppconsul/ext/json11/json11.cpp:424-436 | the loop skips exactly white space and, in the comment strategy, comments |
| JsonParser.JsonParser.GetNextToken | src/ppconsul/ext/json11/json11.cpp:442-448 | the next token and the index behind it, NUL and an error at the end of input |
| JsonParser.JsonParser.ParseNumberHere | src/ppconsul/ext/json11/json11.cpp:573-622 | number, index and error agree with the grammar of section 6 of RFC 8259 as json11 reads it |
| JsonParser.JsonParser.ExpectHere | src/ppconsul/ext/json11/json11.cpp:629-638 | the literal after one push-back, or an error |
| JsonParser.JsonParser.ParseJson | src/ppconsul/ext/json11/json11.cpp:644-728 | despite the push-backs the parser terminates, the index stays within the input, and value, index and first error are those of the reference grammar; after an earlier failure the result is null and the error unchanged |
| JsonParser.JsonParser.ParseObject | src/ppconsul/ext/json11/json11.cpp:670-701 | the member loop builds the map, a repeated key replacing the earlier value |
| JsonParser.JsonParser.ParseArray | src/ppconsul/ext/json11/json11.cpp:703-725 | the element loop with its push-back before each element |
| JsonParser.Parse | src/ppconsul/ext/json11/json11.cpp:732-744 | a whole document or null: any failure, trailing text included, yields null and its first error |
| JsonGrammar.TokenAgain | src/ppconsul/ext/json11/json11.cpp:703-711 | pushing a token back and reading again gives the same token |
| JsonGrammar.ValueFromToken | src/ppconsul/ext/json11/json11.cpp:703-725 | a value read from a pushed-back token is the value read from before it |
| JsonValue.InsertIsMapUpdate | src/ppconsul/ext/json11/json11.cpp:688 | inserting into the sorted member list is map assignment: sorted keys, that key with that value, all others untouched |
| JsonMulti.PrintAndParse | src/ppconsul/ext/json11/json11.cpp:732-744 | print then parse as one call: the value comes back, or null with the depth error |
| JsonMulti.ParseMulti | src/ppconsul/ext/json11/json11.cpp:747-766 | all documents of a text, the end of the last complete one, and the first error |
| JsonMulti.MultiRoundTrip | src/ppconsul/ext/json11/json11.cpp:747-766 | values printed one per line all come back, in order, up to the end of the text |
| JsonMulti.FailedDocument | src/ppconsul/ext/json11/json11.cpp:747-766 | for every text whose reading fails, the last value is the complete document when the garbage behind it fails, and when the document itself fails it is the empty string if the next token is a quote and null otherwise; `FailedStringIsEmpty` is a witness |
| JsonOrder.Trichotomy | src/ppconsul/ext/json11/json11.cpp:302-318 | for any two nested values exactly one of less, equal and greater holds |
| JsonOrder.Transitivity | src/ppconsul/ext/json11/json11.cpp:302-318 | less and equal compose like a strict total order and its equality, through arrays and objects |
| JsonOrder.OrderMeaning | src/ppconsul/ext/json11/json11.cpp:161-189 | which values are smaller: null, numbers, booleans, strings, arrays, objects in this order; numbers by value, strings by the first different byte, arrays and objects by the first different element or entry, a proper prefix before the longer one |
| Base64.EncodeSplitIndependent | src/ppconsul/ext/b64/cencode.c:26-85 | however the input is cut into calls, the output and the saved state are the same |
| Base64.DecodeSplitIndependent | src/ppconsul/ext/b64/cdecode.c:25-87 | the same for the decoder |
| Base64.EncodedLength | src/ppconsul/ext/b64/cencode.c:26-108 | n bytes encode to 4*ceil(n/3) + n/54 + 1 characters, line breaks included |
| Base64.GroupBits | src/ppconsul/ext/b64/cencode.c:40-73 | the four values of a group are the 24 bits of its three bytes in order (section 4 of RFC 4648) |
| Base64Reference.EncodedText | src/ppconsul/ext/b64/cencode.c:19-108 | for every input the encoder writes exactly the text of section 4 of RFC 4648, given in plain arithmetic and character literals, with a line break after every 72 characters and at the end |
| Base64Reference.DecodedBytes | src/ppconsul/ext/b64/cdecode.c:10-87 | for every text the decoder yields exactly the bytes of its letters of RFC 4648, everything else skipped |
| Base64Alphabet.TableInverse | src/ppconsul/ext/b64/cdecode.c:10-17 | a character has value v if and only if it is letter number v of the RFC's table |
| Base64Reference.DecodeTable | src/ppconsul/ext/b64/cdecode.c:10-17 | the decoding table knows exactly the 64 letters, each with its value |
| Base64.ValueRoundTrip | src/ppconsul/ext/b64/cdecode.c:10-17 | the decoding table inverts the encoding table on all 64 values |
| Base64.DecodedLength | src/ppconsul/ext/b64/cdecode.c:25-87 | from any state, the number of bytes produced follows from the number of alphabet characters alone |
| Base64.RoundTrip | src/ppconsul/ext/b64/cdecode.c:25-87 | decoding an encoding returns exactly the original bytes |
| Base64.ChunkedRoundTrip | src/ppconsul/ext/b64/cdecode.c:25-87 | also with both sides cut into arbitrary calls |
| Base64Stream.EncodeBlock | src/ppconsul/ext/b64/cencode.c:26-85 | the switch-into-loop writes exactly the specified characters at the front of the buffer, nothing else, and saves the specified state |
| Base64Stream.EncodeBlockEnd | src/ppconsul/ext/b64/cencode.c:87-108 | writes the padding and the final line break for the saved state, and nothing behind them |
| Base64Stream.DecodeBlock | src/ppconsul/ext/b64/cdecode.c:25-87 | writes exactly the decoded bytes, touches at most one cell behind them, and saves the specified state |
| Base64Stream.DecodeBase64 | src/ppconsul/src/helpers.cpp:45-56 | for any text, junk and wrong padding included, exactly the bytes that RFC 4648 gives to its letters, floor(3v/4) of them for v letters, all writes inside the (n+3)/4*3 buffer and its terminator |
| Base64Stream.TerminatorSafe | src/ppconsul/src/helpers.cpp:45-56 | the decoded bytes never exceed the buffer, and fill it only when no partial byte is pending |
| Base64Stream.DecodeIntoString | src/ppconsul/src/helpers.cpp:45-56 | decoding into the string buffer leaves the terminator behind it unchanged |
| Base64Stream.EncodeThenDecode | src/ppconsul/ext/b64/cencode.c:26-108 | two encode calls, the end call and a decode give back the concatenated input |
| Balancer.StepKeeps | src/grpclb/balancer/server.go:63-135 | every atomic action of every caller and every service loop keeps the invariant, and says where the service concerned moves |
| Balancer.EveryRun | src/grpclb/balancer/server.go:63-135 | in every interleaving of any number of callers nothing panics (no channel closed twice, no index out of range) and each started service is in exactly one place: cached under its own target, held by one undecided creator, on one closer's pending list, or closed |
| Balancer.NoLeak | src/grpclb/balancer/service.go:23-68 | once all callers have returned, the loop of a service has ended if and only if the service is not in the cache |
| BalancerReplies.EveryReply | src/grpclb/balancer/server.go:63-120 | in every interleaving a `GetServers` call returns a backend of the list last given, by creation or tick, to the service it found cached for its target when it looked or inserted; none exactly when that list was empty; and it fails exactly when its creation failed |
| BalancerReplies.CachedIsUsed | src/grpclb/balancer/server.go:64-82 | a caller that finds its target cached when it looks creates, inserts and closes nothing afterwards |
| Balancer.NeverStuck | src/grpclb/balancer/service.go:47-68 | in every reachable state every caller under way can act itself, or the loop it waits for can close |
| Balancer.ConcernedStep | src/grpclb/balancer/server.go:63-135 | every step of a caller, or of the loop it waits for, brings that caller strictly nearer to its return and moves no other caller |
| Balancer.OtherStep | src/grpclb/balancer/server.go:63-135 | no other step moves the caller or sets it back |
| Balancer.AllCanReturn | src/grpclb/balancer/server.go:63-135 | from every reachable state a finite schedule without new calls returns all callers |
| Telecom.GlueValue | src/telecom.cpp:5-23 | decimal concatenation is x * 10^digits(y) + y |
| Telecom.ToOfDec | src/amf.cpp:466-474 | a digit text without a leading zero is the text of its number, so slicing texts is arithmetic |
| Telecom.Identifiers | src/amf.cpp:407-415 | for every UE number a below 10^9 the IMSI is 119000000000+a, the GUTI 1111119000000000+a and the sliced tunnel id a, within 64, 64 and 32 bits |
| IpPool.SetIpAddrs | src/upf.cpp:330-355 | the allocation loop gives exactly the IMSIs of the pool an address, and the text for UE i, split at its dots and read as decimal numbers, is 172, 16, 1+i/252 and 3+i%252 |
| IpPool.AddressInjective | src/upf.cpp:330-355 | two UEs never share a rendered address |
| IpPool.OctetsInRange | src/upf.cpp:330-355 | the four numbers read back from the address of UE i are all at most 255 if and only if i is below 64260; the third is never 0 and the fourth lies in 3..254 |
| Upf.SessionLeavesNoTrace | src/upf.cpp:72-325 | create, modify and detach never take the error exit, and restore the four tables if and only if the id, the address and the IMSI were free |
| Upf.HandoverEffect | src/upf.cpp:197-280 | the handover trio switches the downlink to the target, leaves no handover entry, changes nothing else, and restores the uplink table if and only if the id after the UE's was free |
| Upf.NeighbourLosesUplink | src/upf.cpp:217-220 | a UE that holds the next id loses its uplink entry |
| Upf.HoKeyCollision | src/upf.h:73 | two IMSIs get the same 32-bit handover key if and only if they differ by a multiple of 2^32 |
| Upf.SharedAddress | src/upf.cpp:72-128 | two IMSIs get the same address if and only if they are equal or both outside the pool |
| Upf.Upf.HandleCreateSession | src/upf.cpp:72-128 | new tables and reply |
| Upf.Upf.HandleModifyBearer | src/upf.cpp:130-161 | new context, or the zero-IMSI exit with nothing changed |
| Upf.Upf.HandleDetach | src/upf.cpp:282-325 | the four removals, or one of the two error exits with nothing changed |
| Upf.Upf.HandleTunnelSetup | src/upf.cpp:197-227 | handover entry, indirect uplink id and its 32-bit wrap |
| Upf.Upf.HandleHandoverCompletion | src/upf.cpp:228-256 | downlink switched and handover entry erased |
| Upf.Upf.HandleTunnelTeardown | src/upf.cpp:257-280 | indirect uplink entry erased |
| Upf.Upf.HandleDownlink | src/upf.cpp:174-196 | endpoint for an address, or drop |
| Smf.Smf.HandleCreateSession | src/smf.cpp:185-340 | SMF and UPF tables and reply, or the zero-GUTI exit |
| Smf.Smf.HandleModifyBearer | src/smf.cpp:342-412 | the UPF receives the SMF's own downlink field |
| Smf.Smf.HandleDetach | src/smf.cpp:414-482 | detach is passed to the UPF; the SMF keeps its context |
| Amf.Amf.HandleInitialAttach | src/amf.cpp:476-516 | next id, its GUTI and the context |
| Amf.Amf.HandleCreateSession | src/amf.cpp:757-926 | all three functions' tables after the session is created |
| Amf.Amf.HandleAttachComplete | src/amf.cpp:929-1050 | all three functions' tables after attach complete and modify bearer |
| Amf.Amf.HandleDetach | src/amf.cpp:1218-1353 | all three functions' tables after detach, for the GUTI in the message |
| Amf.Amf.HandleTunnelSetup | src/amf.cpp:1056-1101 | first handover message: AMF and UPF tables |
| Amf.Amf.HandleHandoverCompletion | src/amf.cpp:1140-1180 | second handover message |
| Amf.Amf.HandleTunnelTeardown | src/amf.cpp:1182-1216 | third handover message |
| SessionTables.StepKeeps | src/amf.cpp:757-926 | every handler step of every UE keeps the invariant over AMF, SMF and UPF and changes no table outside the acting UE's keys: its contexts, its AMF id, its address, and in the uplink table its own id and the one after it |
| SessionTables.Undisturbed | src/upf.cpp:197-280 | another live UE keeps its uplink entry if and only if the step does not set up or tear down the indirect tunnel of the UE numbered just before it, and its address entry if and only if the step does not create or end a session with the same address |
| ControlPlane.EveryRun | src/smf.cpp:185-482 | in every run no handler exits, AMF, SMF and UPF agree on tunnel ids and address of every live session, the UPF's control table and contexts hold exactly the live sessions, and AMF ids are non-zero and unique |
| SessionTables.UplinkExact | src/upf.cpp:358-476 | in every run the uplink table is exactly the live sessions and the standing indirect tunnels, each with its IMSI, in all states if and only if in all states no UE in handover has a neighbour with a session |
| SessionTables.HandoverNextToUe | src/upf.cpp:217-220 | from every reachable state a handover next to a UE with a session leaves that UE without an uplink entry |
| SessionTables.NeighbourLosesUplink | src/upf.cpp:217-220 | every pair of neighbours has a run from the start in which that happens |
| SessionTables.AddressExact | src/upf.cpp:358-476 | in every run the address table is exactly the live sessions' addresses, each with its IMSI, in all states if and only if no two live sessions ever share an address |
| SessionTables.DownlinkRouting | src/upf.cpp:174-196 | in every run of pool UEs a packet to a UE's address goes to the endpoint last set for that UE, or is dropped, packets to all other addresses are dropped, and the address table holds exactly the live UEs' addresses |
| ControlPlane.SwitchedDownlink | src/upf.cpp:228-256 | in every run a switched UE's downlink id is its target's and its handover entry is gone |
| ControlPlane.AnnouncedDownlinkIsLost | src/smf.cpp:342-412 | in every run the UPF holds downlink id 0 after attach complete, which is the id announced if and only if the UE is number 0 |
| SessionTables.NothingLeft | src/upf.cpp:282-325 | in every run that ends with all UEs detached all tables of the AMF and the UPF are empty again |
| ControlPlane.CycleCompletes | src/ran_simulator.cpp:157-235 | from every reachable state a detached UE can attach, get a session, be handed over and detach, whatever the others are doing, and the attached UEs are then the same as before |
| Simulator.Simulator.constructor | src/upf.cpp:330-355 | a fresh AMF, SMF and UPF with a pool of any size satisfy the invariant |
| Simulator.Simulator.InitialAttach | src/amf.cpp:476-516 | the UE gets an AMF id that is not 0 and that no other attached UE has; the invariant holds |
| Simulator.Simulator.CreateSession | src/amf.cpp:757-926 | never takes an error exit, and the AMF, SMF and UPF objects then agree on the session |
| Simulator.Simulator.CompleteAttach | src/amf.cpp:929-1050 | never takes an error exit, and the UE then takes downlink packets |
| Simulator.Simulator.SetupTunnel | src/amf.cpp:1056-1101 | the invariant holds with the handover entry in place |
| Simulator.Simulator.SwitchDownlink | src/amf.cpp:1140-1180 | packets to the UE go to the target from then on |
| Simulator.Simulator.TeardownTunnel | src/amf.cpp:1182-1216 | the UE is attached again and its packets go where they went |
| Simulator.Simulator.Handover | src/ran.cpp:368-458 | after the trio the UE is attached and its packets go to the target |
| Simulator.Simulator.Detach | src/ran.cpp:459-500 | never takes an error exit, and only that UE is gone |
| Simulator.Simulator.Downlink | src/upf.cpp:498-512 | a packet goes to the endpoint last set for the owner of the address, or is dropped, between any two procedures of pool UEs |
| Simulator.Simulator.LifeCycle | src/ran_simulator.cpp:157-235 | a UE's whole life on the three objects, whatever the others have done so far, leaves the attached UEs as they were |
| Wire.LeReadsBack | src/packet.cpp:56-86 | a number comes back from w bytes if and only if it fits them |
| Wire.ItemReadsBack | src/packet.cpp:40-119 | every typed item is read back by its type, whatever follows, with exactly its bytes consumed |
| Wire.ItemsReadBack | src/packet.cpp:184-259 | extracting the same types in order gives all items back and stops behind them |
| Wire.ReceivedUnchanged | src/packet.cpp:114-119 | the items come back unchanged if and only if no text holds a NUL byte |
| Wire.S1apReadsBack | src/packet.cpp:268-273 | the header members come back from their 12 bytes |
| Wire.S1apLayout | src/s1ap.h:6-27 | where the header members stand: length at 0, type at 2, the ids at 4 and 8, lowest byte first |
| Wire.ItemLayout | src/packet.cpp:40-119 | the bytes of each item type: numbers lowest byte first, two's complement for int, a text behind its four-byte length |
| Packet.Packet.AppendItem | src/packet.cpp:40-119 | writes exactly the item's bytes at the cursor, wherever it is, moves cursor and length, and extends the message when the cursor is at its end |
| Packet.Packet.AppendItems | src/amf.cpp:901-913 | the same for a whole message in order |
| Packet.Packet.PrependBytes | src/packet.cpp:121-130 | a new buffer with the bytes in front of the unchanged message |
| Packet.Packet.PrependS1ap | src/packet.cpp:145-156 | header fields set and their bytes put in front of the message |
| Packet.Packet.PrependLen | src/packet.cpp:171-182 | the length prefix in front of the message |
| Packet.Packet.ExtractItem | src/packet.cpp:184-259 | the item at the cursor and the cursor behind it; a negative text length is the error exit |
| Packet.Packet.ExtractItems | src/ran.cpp:275-287 | a whole message extracted in order |
| Packet.Packet.ExtractS1ap | src/packet.cpp:268-273 | header fields read and cursor moved |
| Packet.Packet.Truncate | src/packet.cpp:282-291 | only the unread part of the message remains, at the front, with zeros behind it |
| Packet.Packet.Clear | src/packet.cpp:293-299 | an empty message in a zeroed buffer |
| Packet.Packet.Copy | src/packet.cpp:9-17 | the copy holds the message and zeros behind it |
| Security.Encrypt | src/security.cpp:18-27 | the message becomes its cipher text |
| Security.Decrypt | src/security.cpp:52-62 | the unread part becomes its plain text, or the error exit |
| Security.AddHmac | src/security.cpp:101-108 | the MAC of the message in front of it |
| Security.CompareHmacs | src/security.cpp:141-152 | true if and only if the two MACs agree in every byte |
| Security.CheckHmac | src/security.cpp:121-134 | true if and only if the leading MAC is that of the rest, which alone remains |
| Security.OpenSealed | src/security.cpp:101-152 | for every item list within the buffer, opening a sealed message passes the check and returns the header and the items |
| Security.SealedLength | src/packet.h:12-14 | header, MAC and cipher text add up, and 972 payload bytes always fit a frame |
| Security.Seal | src/amf.cpp:900-922 | clear, append, encrypt, add the MAC and prepend the header produce the sealed message |
| Security.Open | src/ran.cpp:264-287 | extract the header, check the MAC, decrypt and extract the items: the four outcomes |
| Link.Transfer | src/network.cpp:171-193 | a packet through a connection arrives as it was sent if and only if no write and no read failed |
| Link.Exchange | src/ran.cpp:264-287 | a message built, sealed, framed, split arbitrarily in transit, unframed, opened and read delivers the header and items sent, and is lost if and only if a write or a read failed |
| Network.FramesAreFirst | src/network.cpp:171-193 | frames that start a framed stream are its first packets, and the rest frames the others: framing is unambiguous |
| Network.WriteStream | src/network.cpp:144-169 | for every way the kernel splits the writes all bytes go out in order; fewer if and only if a write failed |
| Network.ReadStream | src/network.cpp:117-142 | for every way the kernel splits the reads the next bytes of the stream come in order; fewer if and only if a read failed or the stream ended |
| Network.WritePacket | src/network.cpp:187-193 | the stream grows by exactly the packet's frame, or by a first part of it if and only if a write failed; the caller's packet is untouched |
| Network.ReadPacket | src/network.cpp:171-185 | every frame on the stream is read unless a read fails, the bytes taken being exactly the frame of the packet now held; an overrun is reported if and only if the prefix was read and exceeds 1024 |
| Network.SendAll | src/network.cpp:187-193 | all packets stand on the stream as their frames; fewer are reported sent if and only if a write failed |
| Network.ReceiveAll | src/network.cpp:171-185 | from a peer that sends packets of 1 to 1020 bytes the receiver gets, unless a read fails, exactly the sent packets in order, all or as many as it asks for, and the stream is left at a packet boundary; after a failed read it has a first part of them |
| Network.Deliver | src/network.cpp:117-193 | unless a write or a read fails the receiver gets all packets in order and the stream is used up |
| Worker.MaxElement | src/utils.cpp:62-73 | the largest element, but at least 0 |
| Worker.Worker.Round | src/sctp_server.cpp:62-98 | each connection present at the start is examined once and in order while dead ones are erased, the one admitted waits for the next round, and the maximum descriptor is right again at the next select |
| Worker.Conserved | src/sctp_server.cpp:82-96 | a round neither loses nor doubles a connection |
| Worker.AcceptClients | src/sctp_server.cpp:102-120 | each worker's queue after the accepting loop |
| Worker.RoundRobin | src/sctp_server.cpp:102-120 | connection number j is number j/n of worker j mod n, and workers get nothing else |
| Query.UrlRoundTrip | src/ppconsul/src/helpers.cpp:18-43 | percent-decoding (section 2.1 of RFC 3986) undoes the encoding of every byte string |
| Query.EncodeUrl | src/ppconsul/src/helpers.cpp:58-78 | the loop yields the text that is proved to decode back |
| Query.UrlTextIsSafe | src/ppconsul/src/helpers.cpp:18-36 | no separator survives in an encoded value |
| Query.UrlCharForm | src/ppconsul/src/helpers.cpp:18-43 | exactly the unreserved characters of section 2.3 of RFC 3986 stay as they are; every other byte becomes a percent sign and two upper-case digits |
| Query.UniqueIndexesAreLast | src/ppconsul/include/ppconsul/kwargs.h:208-235 | the fold from the back selects exactly the last occurrence of each keyword, in ascending order |
| Query.MakeQuery | src/ppconsul/include/ppconsul/parameters.h:64-76 | splitting the query and percent-decoding gives exactly the last non-empty value of each keyword in order of last occurrence if and only if no printed name holds `&` or `=` |
| Query.PrintParameters | src/ppconsul/include/ppconsul/parameters.h:33-76 | the pieces joined by `&`, with the last one trimmed |

## Left out

- Authentication and key agreement between RAN, AMF and AUSF, security mode, location update, tracking areas, APN, bearer ids and timers: not part of this model.
- Handlers are atomic, and a UE performs one procedure at a time and attaches only while detached, as the simulator drives it; interleavings inside a handler (the detach reply precedes the removals) are not modelled.
- UE numbers from 10^9 on, and runs of 2^32 or more attaches, in which the AMF's ids wrap around.
- `stoull` overflow and the exception of `substr` on a GUTI shorter than seven digits; members that the code leaves uninitialised read as 0.
- `snprintf` and `strtod`: doubles are exact reals, without rounding, overflow, infinities or NaN, and texts of non-integral numbers are read but not printed.
- JSON error messages are constructors with the text or character they quote, not the English sentences. `has_shape` and the accessors are not modelled.
- GTP and Diameter headers, which have the same shape as the S1AP one; the uplink data path, TUN devices, UDP and the RAN's traffic monitor.
- AES and HMAC themselves: `Security` assumes an inverse pair that adds at most 16 bytes and a 20-byte MAC function.
- The interplay of threads inside one worker round (the answers of `serve_client` are parameters), and a pipe that is closed.
- Resolution, tag filtering and the picking rules of the balancer: the endpoints and the choice are parameters of the steps. Being concurrent, the cache is a transition system and not a class.
- Non-string query parameters and `makeUrl`; the remaining Consul client, gRPC stubs and load generators.
- Telecom.Identifiers: states the RAN's and the AMF's constants (country code 1, network code 1, group 1, code 1) only.
- Network.WritePacket: requires a message of at most 1020 bytes, because a longer one makes the code write past its buffer.
- Packet.Packet.AppendItem: requires room in the 1024-byte buffer, because the code would write past it.
- Packet.Packet.Truncate: requires the cursor not behind the message, because the code would copy a negative number of bytes.
- Security.Open: requires a message that holds a header and a MAC and kinds that stay inside the buffer, because the code reads on past the end otherwise.
- Worker.Worker.Round: the descriptor sets are sets of integers, without the limit of `FD_SETSIZE`.
