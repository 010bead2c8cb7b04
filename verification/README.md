# A Dafny model of tinydhcpd

`tinydhcpd` is a small DHCPv4 server (RFC 2131, options of RFC 2132). This project models its three
stateful cores and proves what they keep over whole runs:

- the **lease table** of `src/daemon.cpp`: DISCOVER, REQUEST, RELEASE, DECLINE and INFORM, lazy expiry, the
  search for a free address, and the text lease file written at shutdown and read at start;
- the **wire codec** of `src/datagram.cpp` and `src/bytemanip.*`: bits, bytes and byte order, the 240-byte
  header, and the tag/length/value option area;
- the **send path** of `src/socket.cpp` and `src/epoll.hpp`: the reply queue and the edge-triggered poll loop.

| file | content |
|---|---|
| `Bytes.dfy` | machine words, `&`, `\|`, shifts, big-endian codec, host byte order |
| `Options.dfy` | the option area: parser loop, printer, and a grammar independent of both |
| `Datagram.dfy` | `from_buffer` and `to_byte_vector` |
| `SubnetConfig.dfy` | configuration checks; when checking two ends checks a range |
| `Leases.dfy` | the table, its key order, purging, the two searches |
| `Handlers.dfy` | each message as a function of table, datagram and clock |
| `Conduct.dfy` | what each message does, restated in literal types, tags and bounds, entry by entry |
| `Runs.dfy` | runs of messages and restarts |
| `Invisibility.dfy`, `Justification.dfy`, `Exclusivity.dfy`, `Promises.dfy` | the results over runs |
| `LeaseText.dfy`, `LeaseFile.dfy` | the lease file, character by character |
| `Wire.dfy` | from request bytes to reply bytes |
| `Daemon.dfy` | the `Daemon` object: imperative handlers on table and socket, proved against `Handlers`, tied to `Runs` across restarts |
| `SendQueue.dfy`, `PollLoop.dfy` | the reply queue, the drain phase, and the poll loop interleaved with the kernel |
| `Server.dfy` | poll loop, daemon and kernel together |
| `Wrappers.dfy` | `Option` |

## How the model reads the source

- **The search for a free address** (`src/daemon.cpp:275-285`) always leaves its loop on the first table entry.
  The `Daemon` object does exactly that. `Scan` names two searches: `AsWritten` is that loop, `Intended` advances
  until nobody holds the candidate. Results that hold for both are stated for both. Exclusive addresses hold for
  `Intended`; for `AsWritten` there is the exact condition per call, a proof that its pool has two addresses
  whatever the range, and a proof that any three new clients clash. For either search a run shows no clash exactly
  when no DISCOVER settles on another client's address (`RunStaysExclusiveExactlyWhen`).
- **Clock.** A handler reads the clock up to three times (`Clock`: purge, remaining time, new expiry), and time may
  pass in between. Expiry times are 64-bit and wrap.
- **Exceptions.** `Rejected` is `std::invalid_argument`, caught and logged by the socket (`src/socket.cpp:115-117`);
  `Crashed` is `std::out_of_range`, which neither the socket nor `main` catches.
- **Uninitialised data.** Each line of the lease file has an address array of its own, which `residue(n)` fills where line
  `n` is short. `from_buffer` never assigns the last hardware-address byte, the relay address and the
  receiving address; `Residue` holds what is found there, and results hold for every residue.
- **The option parser's bound** (`src/datagram.cpp:68`) compares a moving cursor with itself, so only END stops the
  loop. `Overrun` is the outcome where it would read behind the buffer, which is undefined in C++;
  `ParserOverrunsExactlyWhen` says for which buffers that is.
- **Words** are integers with explicit ranges; addresses are in host order, and the comparison the source makes on
  network-order words is proved equal for both kinds of host.
- **The poll loop** is a state machine in which the kernel may act between any two statements. `Report` requires
  `epoll_wait` to report what is ready and has an unreported edge, and allows it to report more.
- **Runs** include events after a `Crashed` outcome; this only makes the statements cover more than the program does.

## Where the code and its documentation part

- RFC 2131 makes addresses exclusive; `ThreeDiscoversClash` shows the loop as written does not. A fixed host is
  offered its address without a look at its current holder (`FixedHostIsOfferedUnchecked`); `FixedApart` is the
  configuration under which that is harmless.
- Leases leave the subnet exactly through a ciaddr outside it (`StepStaysInSubnetExactlyWhen`, with the input in
  `AnyOutsideAddressIsOffered`).
- A nonzero ciaddr in a DISCOVER is offered unchecked on two paths (`OffersCiaddr`, `CiaddrIsOfferedUnchecked`): when
  the client requests an address as well and does not get it, even without any lease of its own, and when it
  requests none and holds anything at all. If it requests none and holds nothing, the process ends
  (`HandlersAreTotalExactlyWhen`). Section 4.4.1 of RFC 2131 has ciaddr 0 in DISCOVER; results that need this say so
  (`Plain`, `ZeroCiaddr`).
- The fixed host is looked up by the first hlen octets padded with zeros, the table by all sixteen. A client with a short
  hlen can pass for another fixed host, or miss its own address. `EtherAgrees`, which `Plain` includes, asks that the two
  lookups name the same host or that neither names one; every client with six octets or more satisfies it.
- The same bytes received twice name the same client exactly when an uninitialised byte agrees (`SameBytesSameClient`).
- The remaining lease time wraps when the clock passes the expiry between two readings
  (`RemainingTimeIsExactExactlyWhen`).
- The entry of a declined address is not permanent: `StepUnfilesExactlyWhen` lists the datagrams that replace or erase
  it, among them a REQUEST from the all-zero hardware address for the address itself (`ZeroClientUndoesDecline`).
- Checking only the two ends of the range covers the range exactly for prefix masks (`RangeCheckCoversRange`); the
  source accepts any mask, and does not check the order of the ends.

## Model

| member | source | states |
|---|---|---|
| Bytes.ToByteArray | src/bytemanip.hpp:15-26 | the counted mask-and-shift loop fills the array with the big-endian bytes of the number |
| Bytes.NumberToByteVector | src/bytemanip.hpp:28-38 | the pushing loop yields the same bytes |
| Bytes.ToNumber | src/bytemanip.hpp:40-61 | accumulating with `\|=` yields the number the bytes spell; a wrong size is the error |
| Bytes.PushNumber | src/bytemanip.hpp:63-78 | the caller's vector grows by exactly those bytes |
| Bytes.NumberRoundTrip | src/bytemanip.hpp:15-61 | decoding undoes encoding on every value that fits |
| Bytes.BytesRoundTrip | src/bytemanip.hpp:15-61 | encoding undoes decoding on every byte string |
| Bytes.BigEndianAt | src/bytemanip.hpp:15-26 | byte `i` of the encoding is the number shifted down by the bytes behind it, modulo 256 |
| Bytes.BitwiseOperators | src/bytemanip.hpp:15-61 | the recursive `&` and `\|` of the model act on every bit by itself |
| Bytes.NetworkRoundTrip | src/bytemanip.cpp:6-31 | the extra byte swaps of encoder and decoder cancel on either kind of host, for values |
| Bytes.NetworkEcho | src/bytemanip.cpp:6-31 | and for bytes that are decoded and encoded again |
| Bytes.NetworkBytesInMemory | src/bytemanip.cpp:6-31 | on the wire a little-endian host has the low byte first, a big-endian one the high byte, and each reads in its own order |
| Options.ParseOptions | src/datagram.cpp:65-92 | the cursor loop, with its guard as written, computes `ParseArea` |
| Options.ParserAcceptsGrammar | src/datagram.cpp:65-92 | for every area: the parser returns a map exactly for legal items followed by END and anything, each tag with its last occurrence, or the empty map for no bytes at all |
| Options.ParserOverrunsExactlyWhen | src/datagram.cpp:68-90 | it leaves the buffer exactly when, behind legal items, the buffer ends or cuts an option short |
| Options.ParserThrowsExactlyWhen | src/datagram.cpp:78-86 | it throws over a tag exactly when, behind legal items, that tag has a forbidden length: 53 other than one, 1, 2 or 50 other than four |
| Options.ParsedIsEncodable | src/datagram.cpp:26-33 | every parsed tag is between 1 and 254, no value is over 255 bytes, 53 has one byte, and 1, 2 and 50 have four |
| Options.SingleOption | src/datagram.cpp:65-92 | by its bytes, padding, one option and END: accepted with that value exactly when its length suits its tag, otherwise that tag is thrown |
| Options.OptionsRoundTrip | src/datagram.cpp:113-119 | printing in any order and parsing gives the map back exactly when all its options are legal |
| Options.ReencodingIsCanonical | src/datagram.cpp:65-119 | parse, print in any order, parse: the same map |
| Options.PaddingOverruns | src/datagram.cpp:68-76 | the witness: an area of padding, of any length, drives the loop out of the buffer |
| DhcpDatagram.FromBuffer | src/datagram.cpp:35-63 | reading the fields one by one computes `Decode`; a wrong cookie is accepted, a bad option length is the error |
| DhcpDatagram.ToByteVector | src/datagram.cpp:94-122 | pushing field by field, options in any iteration order, computes `Encode` |
| DhcpDatagram.FieldOffsets | src/datagram.cpp:7-22 | every header field at its byte offset, no hops, zero names, and the cookie 99.130.83.99 |
| DhcpDatagram.DatagramRoundTrip | src/datagram.cpp:35-122 | encode in any order, append anything, decode: same fields and option map, exactly when the options are legal |
| DhcpDatagram.EncodingExists | src/datagram.cpp:94-122 | every datagram with legal options has an encoding that decodes to it |
| DhcpDatagram.SameBytesSameClient | src/datagram.cpp:51-52 | with 15 of 16 address bytes copied, the client key depends on the uninitialised one |
| SubnetConfig.ParseHosts | src/configuration.cpp:99-137 | a fixed address is the last usable entry for its Ethernet address and lies in the subnet |
| SubnetConfig.LastHostDecides | src/configuration.cpp:99-136 | one more entry overrides the address of its Ethernet address if it is complete and in the subnet, and changes nothing if not |
| SubnetConfig.FixedByIsUnique | src/configuration.cpp:99-136 | a list of entries fixes exactly one map |
| SubnetConfig.Configure | src/configuration.cpp:57-97 | accepted exactly when both range ends are in the subnet; fixed hosts are the last usable entries of the list, SUBNET_MASK and LEASE_TIME options spell the configured values, and no other options are added |
| SubnetConfig.StoredTestAgrees | src/daemon.cpp:323-329 | the subnet test on network-order words equals the test on host-order words on either host |
| SubnetConfig.RangeCheckCoversRange | src/configuration.cpp:80-97 | if both ends pass, everything between passes, exactly when the mask is a prefix mask |
| SubnetConfig.PrefixTest | src/configuration.cpp:80-97 | for a prefix mask of any width the subnet test compares the leading bits and nothing else |
| Leases.ScanLoop | src/daemon.cpp:274-285 | the search loop as written, including its unconditional exit, computes `ScanAsWritten`, which `LeastIsBeforeAll` and `Conduct.FirstEntryDecides` pin down |
| Leases.IntendedLoop | src/daemon.cpp:272-285 | the repaired loop computes `FirstFree` |
| Leases.SearchIsComplete | src/daemon.cpp:272-285 | the intended search returns the least free address, and fails exactly when the whole pool is held |
| Leases.SmallTableHasFreeAddress | src/daemon.cpp:272-285 | by pigeonhole it succeeds while the table has fewer entries than the pool |
| Leases.AsWrittenRepeatsExactlyWhen | src/daemon.cpp:275-285 | the guard under which the loop as written returns an address already held |
| Leases.AsWrittenIsIntendedExactlyWhen | src/daemon.cpp:274-285 | for every table and range, it agrees with the intended search exactly when it neither repeats an address nor leaves the pool |
| Leases.OrderIsLexicographic | src/daemon.hpp:23-24 | the order the table is walked in is the one of the first differing byte, from the front |
| Leases.LeastIsBeforeAll | src/daemon.cpp:275 | the walk starts exactly at the key whose first differing byte is the smaller one against every other key |
| Handlers.RequestedOptionsDependOnTagSet | src/daemon.cpp:480-501 | only the set of requested tags matters, nothing is overwritten, asking twice adds nothing |
| Handlers.InformTouchesNoLease | src/daemon.cpp:381-388 | INFORM changes no lease and answers with the requested options in their configured values, except LEASE_TIME |
| Conduct.OnlyThreeTypesAreAnswered | src/daemon.cpp:191-240 | only types 1, 3 and 8 are ever answered |
| Conduct.OthersAreIgnored | src/daemon.cpp:203-240 | other opcodes and unknown types change nothing and stay silent; a request without a type ends the process |
| Conduct.ReleaseErases | src/daemon.cpp:377-379 | the sender has no entry afterwards, all other entries are as before, nothing is sent |
| Conduct.DeclineEnters | src/daemon.cpp:390-397 | sixteen zero bytes are entered with the address until 2^64-1, all other entries are as before, nothing is sent |
| Conduct.MalformedDecline | src/daemon.cpp:390-392 | without option 50 a DECLINE ends the process, with one of another size it is rejected |
| Conduct.ReplyHeader | src/daemon.cpp:458-478 | opcode 2, the echoed fields, and zero in secs, ciaddr, siaddr and giaddr; no address at all in the answer to an INFORM |
| Conduct.OfferIsRecorded | src/daemon.cpp:306-312 | a DISCOVER is answered with type 2 or not at all; the address offered is recorded until ten seconds later, modulo 2^64; all other entries are the live ones |
| Conduct.HeldWishIsOffered | src/daemon.cpp:254-263 | a held address of the range, ends included, is offered to who requests it, whatever the ciaddr; one not held or outside gives way to the ciaddr |
| Conduct.CiaddrNeedsLease | src/daemon.cpp:264-271 | without option 50 a ciaddr is offered exactly to a client with a live entry, and otherwise ends the process; an option 50 of another size is rejected |
| Conduct.FixedHostIsOffered | src/daemon.cpp:244-289 | the fixed host is found by the octets hlen counts, padded with zeros to six, and is offered its address |
| Conduct.FirstEntryDecides | src/daemon.cpp:272-285 | the loop as written: the live client whose bytes come first decides between the start of the range and the next address, and silence follows at the end of the range |
| Conduct.EmptyTableOffersStart | src/daemon.cpp:272-275 | with no live client the start of the range is offered, wherever the range ends |
| Conduct.LeastFreeIsOffered | src/daemon.cpp:272-285 | the intended search: the answer is the least address of the range no live client holds, and silence means there is none |
| Conduct.RequestDecides | src/daemon.cpp:315-375 | a REQUEST, with option 50 or the ciaddr: type 5 exactly for a live entry with that address in the subnet, recorded for the lease time modulo 2^64; otherwise a bare type 6 |
| Conduct.MalformedRequest | src/daemon.cpp:317-319 | an option 50 of another size changes nothing |
| Invisibility.HandleAgrees | src/daemon.cpp:191-397 | tables that agree on live entries give the same reply and agree afterwards |
| Invisibility.RunsAgree | src/daemon.cpp:503-589 | so do whole runs, one of them restarted any number of times |
| Invisibility.RestartsAreInvisible | src/daemon.cpp:503-589 | erasing the restarts from any run changes no reply |
| Invisibility.LazyExpiryIsInvisible | src/daemon.cpp:503-514 | dropping expired entries early changes no reply |
| Justification.TableMatchesTraffic | src/daemon.cpp:306-308 | what any client holds, the all-zero address with its declined address included, is exactly what the exchanged messages entitle it to |
| Justification.AckIffJustified | src/daemon.cpp:315-375 | after every run, for every address: a REQUEST is answered with an ACK of it exactly when option 50 spells it, or the ciaddr is it without that option, it is in the subnet and the traffic entitles the client to it; otherwise a NAK, or rejection of a malformed option, and no live entry changes |
| Exclusivity.StepKeepsExclusiveExactlyWhen | src/daemon.cpp:191-397 | any event, either search: exclusive addresses stay so exactly when it is no DISCOVER whose ciaddr, fixed address or pool candidate another client holds |
| Exclusivity.RunStaysExclusiveExactlyWhen | src/daemon.cpp:242-313 | a run, either search, never shows a clash exactly when it has no such DISCOVER |
| Exclusivity.RunsStayExclusive | src/daemon.cpp:242-313 | intended search, ciaddr 0, no client passing for another fixed host, fixed addresses apart: in every run no two clients hold one address |
| Exclusivity.EthernetRunsStayExclusive | src/daemon.cpp:242-313 | so in every run whose DISCOVERs have ciaddr 0 and at least six address octets |
| Exclusivity.GrantedAddressIsReserved | src/daemon.cpp:242-375 | under the same conditions, an address granted by OFFER or ACK is granted to no other client while the grant lasts |
| Exclusivity.DiscoverFailsExactlyWhen | src/daemon.cpp:272-285 | intended search, every DISCOVER that reaches it: no answer exactly when the pool is full, else the least free address |
| Exclusivity.CiaddrIsOfferedUnchecked | src/daemon.cpp:254-272 | on either of its two paths a nonzero ciaddr is offered whoever holds it; exclusive exactly when nobody else does |
| Exclusivity.FixedHostIsOfferedUnchecked | src/daemon.cpp:286-289 | a fixed host is offered its address whoever holds it; exclusive exactly when nobody else does |
| Exclusivity.AsWrittenKeepsExclusivityExactlyWhen | src/daemon.cpp:272-308 | every DISCOVER that reaches the loop as written keeps addresses exclusive exactly when the loop's candidate is not held further down the table |
| Exclusivity.AsWrittenPoolHasTwoAddresses | src/daemon.cpp:274-285 | over every run of plain DISCOVERs and anything else it only ever hands out the first two addresses of the range |
| Exclusivity.ThreeClientsClash | src/daemon.cpp:274-285 | so three clients without fixed addresses cannot hold distinct ones |
| Exclusivity.ThreeDiscoversClash | src/daemon.cpp:274-308 | any three new clients within ten seconds reach that state |
| Promises.StepStaysInSubnetExactlyWhen | src/daemon.cpp:248-308 | any event, either search, range within a prefix-mask subnet, ends in any order: leases stay in the subnet exactly when it is no DISCOVER answered with a ciaddr outside |
| Promises.RunStaysInSubnetExactlyWhen | src/daemon.cpp:248-308 | under the same configuration, every state of a run has all leases in the subnet exactly when no event of the run is one of those |
| Promises.GrantIsOutsideExactlyWhen | src/daemon.cpp:248-375 | an OFFER or ACK names an address outside the subnet exactly when it answers such a DISCOVER |
| Promises.AnyOutsideAddressIsOffered | src/daemon.cpp:254-308 | the failing input: a DISCOVER that has any address outside the subnet offered and recorded |
| Promises.OutsideAddressExists | src/configuration.cpp:80-97 | such addresses exist: 1.2.3.4 for a range in 10.0.0.0/8 |
| Promises.RunsStayInSubnet | src/daemon.cpp:248-290 | if every DISCOVER of a run has ciaddr 0: each client's lease and each address in an OFFER or ACK is in the subnet |
| Promises.LifetimesStayBounded | src/daemon.cpp:306-359 | no lease outlives now by more than ten seconds or the lease time, whichever is longer |
| Promises.RemainingTimeIsExactExactlyWhen | src/daemon.cpp:264-271 | the 32-bit remaining time is exact exactly when the clock has not passed the expiry since the purge |
| Promises.AckPromisesWhatIsRecorded | src/daemon.cpp:348-359 | LEASE_TIME in an ACK decodes to the recorded lease time exactly when a copied configured option does |
| Promises.AckPromiseHolds | src/configuration.cpp:72-76 | under an accepted configuration now plus the promised time is the recorded expiry, asked for or not |
| Promises.OfferContents | src/daemon.cpp:295-304 | all options of an OFFER: 53 is 2, 54 the receiving address, 51 the remaining or configured time, and exactly the requested configured options |
| Promises.AckContents | src/daemon.cpp:345-354 | all options of an ACK: 54 the receiving address, 51 the configured time, and exactly the requested configured options |
| Promises.LeaseTimeIsConfigured | src/configuration.cpp:72-76 | under an accepted configuration option 51 decodes to the configured seconds, asked for or not |
| Promises.RequestedAddressIsAWish | src/daemon.cpp:254-272 | for every DISCOVER with option 50: kept if held and within both ends, replaced by the ciaddr if not, or as if neither were there |
| Promises.DeclineFiles | src/daemon.cpp:390-397 | a DECLINE files its address |
| Promises.StepUnfilesExactlyWhen | src/daemon.cpp:242-397 | the events after which a declined address is no longer filed, exactly |
| Promises.DeclinedStaysFiledExactlyWhen | src/daemon.cpp:390-397 | over a run with restarts it stays filed throughout exactly when no event of the run is one of those |
| Promises.SearchAvoidsDeclined | src/daemon.cpp:273-285 | neither search returns a declined address; for the loop as written because the all-zero key comes first |
| Promises.DeclinedIsOfferedExactlyWhen | src/daemon.cpp:254-308 | a filed address is offered exactly as a kept wish, as a ciaddr or as a fixed address, with either search |
| Promises.DeclinedAddressStaysOut | src/daemon.cpp:242-397 | from the DECLINE through any run that does not unfile it to the next DISCOVER: offered in those three cases only |
| Promises.ZeroClientUndoesDecline | src/daemon.cpp:342-359 | a REQUEST from the all-zero address for the declined address replaces the permanent entry, if the address is in the subnet |
| LeaseText.LineRoundTrip | src/daemon.cpp:527-587 | a printed line reads back as its entry, or as expired, through hex octets, dotted quads and 64-bit decimals |
| LeaseText.LineOfOctets | src/daemon.cpp:553-566 | a line with any number of octets: fewer than sixteen leave the rest of the array, more end the process unless the entry has expired |
| LeaseText.LineWithOneComma | src/daemon.cpp:529-545 | with a single comma the text behind it is both address and time |
| LeaseText.TimeStampRoundTrip | src/daemon.cpp:541-545 | a printed time reads back, or as the largest 64-bit number if it is larger |
| LeaseText.OctetRoundTrip | src/daemon.cpp:558-564 | a printed octet reads back; of a larger number the low eight bits are kept, all ones beyond 63 bits |
| LeaseText.NumberEnds | src/daemon.cpp:541-562 | a number ends at the first character that is no digit |
| LeaseText.NoLeadingZeros | src/daemon.cpp:580-585 | printed numbers have no leading zeros |
| LeaseFile.FileRoundTrip | src/daemon.cpp:516-589 | loading at t2 what was written at t1 restores exactly the entries with expiry > t1 and expiry >= t2, entry by entry |
| LeaseFile.InOrderIsSorted | src/daemon.cpp:579 | the lines are in byte order of the addresses |
| LeaseFile.LinesCons | src/daemon.cpp:527 | a newline ends each line |
| LeaseFile.LastLine | src/daemon.cpp:527 | text behind the last newline is a line, if there is any |
| Runs.RestartKeeps | src/daemon.cpp:503-589 | over a restart an entry stays exactly when it outlives the writing and has not run out before the reading |
| Runs.RepliesInOrder | src/socket.cpp:171-174 | each reply is handed on once, behind the earlier ones, and nothing else is |
| Runs.TimedPointwise | src/daemon.cpp:264-308 | a run is timed exactly when every event begins no earlier than the one before ended and takes its readings in order |
| Wire.HandlersAreTotalExactlyWhen | src/daemon.cpp:214-397 | a parsed datagram is never rejected for an option size, and ends the process exactly in three cases |
| Wire.ReplyEchoesRequest | src/datagram.cpp:94-121 | all 240 bytes in front of the options, on either host: those echoed from the request, the assigned address, the cookie, and zeros everywhere else |
| Wire.ReceivedFields | src/socket.cpp:105-114 | every field of a received datagram by its offset in the buffer; the receiving address is filled in, and the server address exactly where the buffer has zeros |
| Wire.AnswerNamesServer | src/daemon.cpp:297-298 | from the buffer to the option the client decodes: an OFFER or ACK names the address the request came in on |
| Wire.ClientReadsWhatIsRecorded | src/daemon.cpp:295-360 | decoding a reply's bytes recovers it exactly when its options are legal, as configured legal ones are; the address of an OFFER or ACK is the recorded one, secs, ciaddr and siaddr are zero |
| DaemonObject.Daemon.UpdateLeases | src/daemon.cpp:503-514 | the erasing iteration leaves exactly the entries that have not expired |
| DaemonObject.Daemon.SetRequestedOptions | src/daemon.cpp:480-501 | the loop over the list computes `SetRequested` |
| DaemonObject.Daemon.ChooseAddress | src/daemon.cpp:248-290 | the step-by-step search for an address computes `Choose` on the purged table |
| DaemonObject.Daemon.HandleDiscovery | src/daemon.cpp:242-313 | new table, queued reply and exception are those of `Handlers.Discover` |
| DaemonObject.Daemon.HandleRequest | src/daemon.cpp:315-375 | new table, queued reply and exception are those of `Handlers.Request` |
| DaemonObject.Daemon.HandleRelease | src/daemon.cpp:377-379 | the sender's entry is erased, the queue is as before |
| DaemonObject.Daemon.HandleInform | src/daemon.cpp:381-388 | the table is unchanged, the reply is that of `Handlers.Inform` |
| DaemonObject.Daemon.HandleDecline | src/daemon.cpp:390-397 | the address is filed under the all-zero key for ever, or an exception is raised |
| DaemonObject.Daemon.HandleRecv | src/daemon.cpp:191-240 | the dispatch: new table, the reply appended to the queue, and the exception are those of `Handlers.Handle`, and the object stays where its run has taken it |
| DaemonObject.Daemon.HandleBuffer | src/socket.cpp:105-119 | a received buffer is decoded, given the receiving address and handled; `invalid_argument` changes nothing and is swallowed |
| DaemonObject.Daemon.WriteLeases | src/daemon.cpp:573-589 | the table is purged and printed in key order |
| DaemonObject.Daemon.LoadLeases | src/daemon.cpp:516-571 | reading line by line, with a new uninitialised address array for each, computes `LoadLines` on the table before |
| DaemonObject.Daemon.RepliesAsIfNeverStopped | src/daemon.cpp:503-589 | a daemon restarted any number of times has given, datagram for datagram, the replies of one never stopped |
| DaemonObject.Daemon.RepliesReachTheQueue | src/socket.cpp:122-174 | the replies of the run are those of earlier objects, then those settled by the socket, then those in its queue |
| DaemonObject.Start | src/daemon.cpp:57-67 | a new object holds what the lease file says, and fails exactly on an address with too many octets |
| DaemonObject.StopAndStart | src/daemon.cpp:516-589 | a new object that reads the old one's file goes on with the old one's run, a restart appended |
| DaemonObject.AnswerAfterRestart | src/daemon.cpp:191-240 | the next datagram is answered as the old object would have answered it |
| SendQueue.Socket.EnqueueDatagram | src/socket.cpp:171-174 | the reply is appended and nothing is lost |
| SendQueue.Socket.HandleEpollout | src/socket.cpp:122-140 | one `sendto`: the front is settled, or nothing changes if the call would block |
| SendQueue.Epoll.DrainPhase | src/epoll.hpp:65-73 | the drain loop ends with the result of `DrainFrom`, ready only with an empty queue |
| SendQueue.DrainStopsWhen | src/epoll.hpp:65-73 | it takes replies from the front until the queue is empty or a call would block |
| SendQueue.DrainSettlesInOrder | src/socket.cpp:122-140 | each reply has the fate its own call decided, in queue order |
| PollLoop.NoWakeupIsLost | src/epoll.hpp:58-91 | ready to send, or an edge is pending, or the socket is not writable; waiting with replies means not marked ready |
| PollLoop.NeverSleepsOverWork | src/epoll.hpp:58-91 | when the loop sleeps, all input is handled and replies wait only for a full socket |
| PollLoop.RepliesAreConserved | src/socket.cpp:122-174 | in every reachable state: replies enqueued = replies settled, in order, followed by the queue |
| PollLoop.WritableSocketGetsASend | src/epoll.hpp:75-89 | with replies waiting and a writable socket, the next report says so and a send is tried before the next wait |
| PollLoop.DrainPhaseEnds | src/epoll.hpp:65-73 | one drain phase makes at most as many calls as there were replies, however the kernel interferes |
| PollLoop.LeavesExactlyWhen | src/epoll.hpp:59-90 | the loop ends exactly for a signal, a failing `epoll_wait` or an exception of a handler |
| PollLoop.InterruptedGoesOn | src/epoll.hpp:75-78 | after EINTR the loop is at its head, with everything else as it was |
| Server.EveryRequestIsAnsweredInOrder | src/socket.cpp:76-142 | in every reachable state of loop, daemon and kernel: replies settled, then queued, are the daemon's replies to the datagrams received, in order of arrival |
| Server.SleepingServerHasAnsweredAll | src/epoll.hpp:58-91 | when the loop sleeps and the socket is writable, everything that arrived is handled and every reply has left the queue |
| Server.EveryAckIsJustified | src/daemon.cpp:315-375 | in every reachable state, every ACK sent, dropped or queued is justified by the datagrams received before |
| Server.ServerLeasesStayBounded | src/daemon.cpp:306-359 | in every reachable state no lease outlives the last clock reading by more than the longest lease time |

## Left out

- Process setup: `daemonize`, signals as such, capabilities, `main`, logging, build files.
- `Socket` construction, `recvmsg` control data, and `get_reply_destination` with its ioctls and ARP entry: the destination of a reply is not part of the model, so neither is the byte order in which INFORM passes it.
- Delivery of replies still queued at shutdown: a restart drops them (`StopAndStart`); the replies of a run are those handed to the queue.
- libconfig traversal and `parse_options` of the configuration: `Declaration` starts from converted values. `main` logs a rejected configuration and goes on with an empty one; the model stops at `None`.
- The `ether_addr` comparator (`src/subnet_config.hpp:24-32`) is not a strict weak order; `fixedHosts` is a mathematical map and nothing is claimed from that order.
- `EtherOf` for hwLen over 6: the source then writes behind a six-byte structure, which is undefined; the model takes six octets. For hwLen over 16 the log line of `handle_recv` (`src/daemon.cpp:194-196`) also reads behind the address array; logging is not modelled.
- libc conversions beyond what `write_leases` prints: signs, blanks, `0x` prefixes, octal or short address forms.
- `PollLoop` as a method: `poll_loop` runs for ever, so the loop is a state machine; only `DrainPhase` is a method.
- `Server`: what follows when the parser reads behind a buffer is undefined, so the run ends there; everything is proved up to that point.
- `PollLoop.Action`: `epoll_wait` with error-only events is a `Report` of nothing.
- Relay agents (giaddr), server host name and boot file contents, which the code does not carry.
