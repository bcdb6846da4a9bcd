# A verified model of the ESP32 NAT router's stateful core

This project models five parts of the router firmware that hold state and arithmetic, and proves what they promise over
all inputs, runs and interleavings.

* **The DHCP lease server.** `LeaseList` has real list nodes with `next` links; `DhcpServer` is the server object whose
  fields and list are updated in place; each of its methods is proved equal to a step of `LeaseMachine`, a state machine
  on values. The theorems are about that machine: `LeaseAllocation` (which address the walk finds, and exhaustion),
  `LeaseInvariants` (what every reachable state satisfies), `LeaseReplies` and `LeaseVerdicts` (which message gets which
  answer, and what that says about the list),
  `LeaseExpiry` (timers and eviction), `LeaseSharing`, `SharingRuns` and `LeaseExhaustion` (what reservations upset),
  `AddressPool`, `ConfiguredPools`, `PoolWrap` and `PoolRepeats` (the pool, and what pools set by hand lead to),
  `Addresses` (why comparing raw network-order words works in a /24), `Reservations` (the fixed assignments),
  `DhcpOptions` and `DhcpReplies` (reading and writing options) and `ClientMessages` (the plainest messages, of which example runs are
  made).
* **The capture pipeline.** `RingBuffer` proves the circular buffer against a queue of bytes, `CaptureRecords` covers the
  records and the packet count of the Python client, and `CaptureProtocol` covers every interleaving of writers, resets
  and one reader around the mutex and the binary semaphore.
* **Packet rewriting.** `Checksum` is the one's-complement arithmetic of RFC 1071 and RFC 1624; on it stand
  `TtlOverride`, `MssClamp` with `MssFrames`, and `FragNeeded`. `ClientStats` is the table of per-client counters.
* **The firewall.** `AclFirewall` proves the fixed tables, their separate counts and their copy in flash against the
  rule lists of `AclRules`; `AclPackets` goes from the bytes of a frame to its verdict, and `Bits` and `AclAddress` cover
  masks and CIDR text.
* **The percent codec.** `PercentCodec` covers the bounded encoder of the web pages and the in-place decoder of the
  parameter parser.

`Words`, `Frame`, `Sequences` and `Wrappers` are shared helpers. Integers carry their width explicitly (`byte`, `u16`,
`u32`), memory words are those of a little-endian CPU, and addresses are raw network-order words as in the source.

Results that say where the code does *not* do what one would expect, each with the exact condition:

* Clamping the MSS keeps a valid TCP checksum exactly when the segment is not clamped, the MSS value is at an even offset
  of the TCP header, or old and new MSS differ by a multiple of 257 (`MssClamp.ClampKeepsTcpChecksumIff`; a concrete
  segment is `MssClamp.MisalignedClampBreaksChecksum`).
* Two leases can share an address. Over every run, with any pool and the reservations changing at will, addresses stay
  distinct if and only if no step is a collision: a client without a lease, not refused in the end, whose own reservation
  is leased to somebody, or which has none and for which the addresses from the walk's choice on are reserved for others
  all the way up to a leased one, be it the choice itself (`LeaseSharing.StepSharesIff`, `LeaseSharing.RunSharesIff`).
  With reservations both kinds happen in runs of two and three messages from a started server (`SharingRuns.OwnReservationRepeatsAnAddress`,
  `SharingRuns.SkippingRepeatsAnAddress`).
* With reservations a client without a lease can be refused beside a free address. It is refused for lack of addresses
  exactly when from the walk's choice on all addresses are reserved for others until the first behind the pool, or its own
  reservation lies there (`LeaseExhaustion.RefusalIff`). In pools that end below host
  255 the walk's choice itself lies there exactly when everything from the cursor on is leased and up to every pool
  address there are at least as many leases as addresses (`LeaseExhaustion.WalkFailsIff`,
  `LeaseExhaustion.RefusedBesideAFreeAddress`).
* Pools set by hand are accepted although they hold host 0 or host 255 of the server's /24. Say that a pool is usable when
  it is not empty and does not start at 0.0.0.0. Over the runs without any reservation,
    * some run leases the network's, the broadcast, the server's own or an outside address if and only if the pool is
      usable and starts at host 0 or ends at host 255 (`ConfiguredPools.ConfiguredPoolLeasesUnfitIff`);
    * some run leases an address outside the server's /24, some run serves a new client from a fully leased pool, and some
      run makes two leases share an address, each of them if and only if the pool is usable and ends at host 255
      (`ConfiguredPools.ConfiguredPoolLeasesOutsideIff`, `PoolWrap.FullPoolServesIff`, `PoolRepeats.RepeatsIff`).
* Ticks without messages bring a list of n leases down by one a tick until 16 are left, whatever its leases, if and only if
  n is at most 255, what the byte that counts the survivors can count to (`LeaseExpiry.QuietTicksThinOutIff`).
* A client understands an offer or acknowledgement, END included, if and only if the captive-portal URI has at most 255
  bytes and the options fit the message, which is as long as the request but at least 548 bytes
  (`DhcpOptions.SentMessageDecodesIff`). With a router and one DNS server 252 bytes are already too many for a short
  request (`DhcpOptions.LongPortalLosesTheEnd`).
* A "fragmentation needed" reply quotes the packet, and not memory behind it, if and only if the first buffer holds the
  whole IP header (`FragNeeded.QuotesThePacketIff`; a frame for which it does not is `FragNeeded.ShortFrameIsNotQuoted`).
* The firewall reads every IPv4 frame as what it was built from. A bare IP packet it reads so unless the first two octets
  of the source address look like a frame's type: it passes unread when the first is below 6, or they are 8.6 or 134.221,
  and is taken for a frame when they are 8.0 (`AclPackets.BareReads`, `AclPackets.BarePacketIsMissed`).
* Raw comparison is numeric comparison on a range of addresses if and only if the range lies in one /24
  (`Addresses.RawOrderAgreesIff`).

## Model

| member | source | states |
|---|---|---|
| LeaseList.InsertNode | components/dhcpserver/dhcpserver.c:349-386 | On an acyclic list of nodes, insertion by relinking yields the list with the new node before the first greater address; only link fields are written |
| LeaseList.RemoveNode | components/dhcpserver/dhcpserver.c:395-419 | Removing a node of the list, whose walk goes on after unlinking, yields the list without exactly that node, still acyclic |
| LeaseList.RemoveOldest | components/dhcpserver/dhcpserver.c:1527-1559 | With at least two nodes, the first node of smallest timer leaves the list and nothing else changes |
| DhcpServer.Server.ParseMsg | components/dhcpserver/dhcpserver.c:1053-1222 | The whole message handler on fields and linked nodes makes exactly one step of the state machine, verdict included |
| DhcpServer.Server.Locate | components/dhcpserver/dhcpserver.c:1069-1171 | Before the options are looked at, the client's lease has been recognised or made, in exactly the state the machine says, or there is no address for it |
| DhcpServer.Server.Walk | components/dhcpserver/dhcpserver.c:1069-1113 | One pass over the list recognises the client or moves the cursor and the fallback search along, with the decline flag's effect on an empty list |
| DhcpServer.Server.NewLease | components/dhcpserver/dhcpserver.c:1115-1170 | Fallback address, skip over reserved addresses, the client's own reservation, exhaustion, and the insertion of a fresh lease with the cursor past it |
| DhcpServer.Server.SkipReservedAddresses | components/dhcpserver/dhcpserver.c:1119-1127 | The skip terminates for every table and address and stops where its specification does |
| DhcpServer.Server.Finish | components/dhcpserver/dhcpserver.c:1172-1212 | Address check, option verdict, removal on refusal, release or decline, host name otherwise |
| DhcpServer.Server.OnTick | components/dhcpserver/dhcpserver.c:1567-1607 | A tick counts down, unlinks expired leases during the walk, and evicts one lease of a crowded list |
| LeaseAllocation.AdvanceFindsSmallestFree | components/dhcpserver/dhcpserver.c:1078-1095 | The walk leaves the cursor at the smallest free address not below its old value: it is free, and everything between is leased |
| LeaseAllocation.FirstUnusedFindsSmallestFree | components/dhcpserver/dhcpserver.c:1097-1104 | The fallback search in the same pass ends at the smallest free address of the pool, or right behind a full pool |
| LeaseAllocation.PoolChoiceIsFree | components/dhcpserver/dhcpserver.c:1078-1117 | The address picked is free, and lies behind the pool if and only if every pool address is leased |
| LeaseAllocation.PoolChoiceIsSmallestFree | components/dhcpserver/dhcpserver.c:1069-1117 | A new client gets the smallest free address from the cursor on, or of the pool when none is left there; an emptied list starts over unless an address was just declined |
| LeaseAllocation.AllocationIsComplete | components/dhcpserver/dhcpserver.c:1148-1170 | Without reservations, for pools that end below host 255, an unknown client is refused for lack of addresses if and only if the whole pool is leased; otherwise its address is in the pool and free |
| LeaseInvariants.HandleKeepsSound | components/dhcpserver/dhcpserver.c:1053-1222 | Any message with any reservations keeps the list sorted, one lease per MAC, every timer at least one |
| LeaseInvariants.RunStaysSound | components/dhcpserver/dhcpserver.c:1053-1222 | The same over every run of messages and ticks, with reservations changing at will |
| LeaseInvariants.HandleKeepsInv | components/dhcpserver/dhcpserver.c:1053-1222 | Without reservations a message keeps leases strictly sorted and inside the pool and the cursor in reach |
| LeaseInvariants.FreshAddressesRotate | components/dhcpserver/dhcpserver.c:1148-1212 | Two new clients in a row: the second gets a greater address than the first, even if the first was refused, as long as a greater one is free |
| LeaseInvariants.ExpireSurvivors | components/dhcpserver/dhcpserver.c:1586-1602 | The leases after the countdown are exactly those that had more than one tick left, one tick older |
| LeaseInvariants.PoolBoundsLeases | components/dhcpserver/dhcpserver.c:1579-1605 | A list of distinct pool addresses is never longer than the pool, so the byte that counts survivors does not wrap |
| LeaseInvariants.ReachableWithoutReservations | components/dhcpserver/dhcpserver.c:1432-1475 | For pools that end below host 255, every state reachable without reservations from a first or later start: addresses distinct and in the pool, sorted, one lease per MAC, timers running, no more leases than pool addresses |
| AddressPool.PollSet | components/dhcpserver/dhcpserver.c:1363-1413 | A configured pool is kept if and only if it is in the server's /24, leaves the server out and has at most 100 addresses; else the default pool is computed |
| AddressPool.GetPoolRange | main/dhcp_manager.c:69-95 | The console's copy of the arithmetic yields the same default pool |
| AddressPool.DefaultPoolIsOk | components/dhcpserver/dhcpserver.c:1390-1411 | For every server address the default pool has exactly 100 addresses of the server's /24, without the server, network and broadcast address |
| AddressPool.DefaultPoolIs | components/dhcpserver/dhcpserver.c:1390-1411 | The default pool is hosts 1 to 100 for a server at host 128 or above, else the hundred hosts behind it |
| AddressPool.AcceptedIff | components/dhcpserver/dhcpserver.c:1371-1388 | Acceptance of a configured pool in terms of the host octets |
| ConfiguredPools.RouterKeepsItsAddress | components/dhcpserver/dhcpserver.c:1363-1413 | From start to any reachable state without reservations: unless the pool in force was set by hand and includes host 0 or 255, no lease is the router's own, the network's, the broadcast or an outside address |
| ConfiguredPools.ConfiguredPoolLeasesUnfitIff | components/dhcpserver/dhcpserver.c:1371-1385 | For every accepted pool: some run leases such an address if and only if the pool is not empty, does not start at 0.0.0.0, and starts at host 0 or ends at host 255 |
| ConfiguredPools.ConfiguredPoolLeasesOutsideIff | components/dhcpserver/dhcpserver.c:1371-1385 | For every accepted pool: some run leases an address outside the server's /24 if and only if the pool is not empty, does not start at 0.0.0.0, and ends at host 255 |
| PoolWrap.AdvanceOverFull | components/dhcpserver/dhcpserver.c:1078-1095 | From the start of a pool whose first addresses are leased the walk leaves the cursor right behind them, host 255 included |
| PoolWrap.FallbackFinds | components/dhcpserver/dhcpserver.c:1097-1104 | With a full pool that ends at host 255 and one more lease below it, the fallback search ends at the first address of the next /24 |
| PoolWrap.FullPoolServesIff | components/dhcpserver/dhcpserver.c:1078-1151 | For every accepted pool: some run without reservations serves a new client from a fully leased pool if and only if the pool is not empty, does not start at 0.0.0.0, and ends at host 255 |
| PoolRepeats.RepeatsIff | components/dhcpserver/dhcpserver.c:1078-1170 | For every accepted pool: some run without reservations makes two leases share an address if and only if the pool is not empty, does not start at 0.0.0.0, and ends at host 255 |
| Addresses.RawOrderIsNumericOrder | components/dhcpserver/dhcpserver.c:362-376 | Inside a /24, comparing raw network-order words is comparing addresses |
| Addresses.RawOrderAgreesIff | components/dhcpserver/dhcpserver.c:362-376 | On all addresses numerically between two, raw order is numeric order if and only if the two are in the same /24 |
| Addresses.NextInPrefix | components/dhcpserver/dhcpserver.c:1090-1094 | Converting, incrementing and converting back is the next host of the same /24, below host 255 |
| LeaseReplies.ReplyAndLeaseAgree | components/dhcpserver/dhcpserver.c:1172-1212 | After an offer or acknowledgement the client holds the reply's address with a full timer; after a refusal, release or decline it holds none; nobody else's lease is touched |
| LeaseReplies.AckNamesTheAddress | components/dhcpserver/dhcpserver.c:981-1041 | An acknowledgement only if option 50, or without it `ciaddr`, names the address; without option 50 the client held it before |
| LeaseReplies.FreshLeaseRespectsReservations | components/dhcpserver/dhcpserver.c:1119-1151 | A fresh lease of a client with a reservation is that address, refused if above the pool's end; without one it is never reserved for another |
| LeaseVerdicts.MessageDecides | components/dhcpserver/dhcpserver.c:1001-1041 | For every message of a client with an address: release (7) and decline (4) end its lease, only a decline is remembered, a discovery (1) is offered the address, a request (3) is acknowledged or refused by option 50 or, without it, by `ciaddr`, and any other type is answered by option 50 alone |
| LeaseVerdicts.NoAddressNoLease | components/dhcpserver/dhcpserver.c:1172-1188 | Without an address, 0.0.0.0 or one behind the pool, a client is refused whatever it says and holds nothing |
| LeaseVerdicts.WithoutCookieNothing | components/dhcpserver/dhcpserver.c:1057-1222 | A message without the cookie changes nothing and gets no answer |
| LeaseVerdicts.KnownMovesTheCursor | components/dhcpserver/dhcpserver.c:1078-1095 | A client with a lease moves the cursor only over the leases before its own |
| LeaseVerdicts.HostnameIs | components/dhcpserver/dhcpserver.c:965-978 | The host name is the longest NUL-free beginning of the last option 12, of at most 31 bytes |
| LeaseReplies.SkipReservedSkips | components/dhcpserver/dhcpserver.c:1119-1127 | From any address, in numeric order and whatever the pool, the skip passes only over pool addresses reserved for others; at 255.255.255.255 it goes on to 0.0.0.0 and ends |
| LeaseSharing.FreshAddressIsTakenIff | components/dhcpserver/dhcpserver.c:1115-1151 | For any pool, client, reservations and leases up to the pool's end: the address picked is already leased if and only if its own reservation is, or it has none and the skip from the walk's choice runs into a lease |
| LeaseSharing.StepSharesIff | components/dhcpserver/dhcpserver.c:1053-1222 | For any pool, a step from distinct addresses makes two leases share one if and only if it is such a pick for a client without a lease that is not refused in the end |
| LeaseSharing.StepKeepsConfined | components/dhcpserver/dhcpserver.c:1053-1222 | Whatever is reserved, every step keeps the list sound, without 0.0.0.0 and without addresses above the pool |
| LeaseSharing.RunSharesIff | components/dhcpserver/dhcpserver.c:1053-1222 | Over every run with any pool and any reservations, changing at will, addresses stay distinct in every state if and only if no step collides |
| SharingRuns.OwnReservationRepeatsAnAddress | components/dhcpserver/dhcpserver.c:1130-1151 | A run of two messages from a started server after which two clients hold the pool's first address |
| SharingRuns.SkippingRepeatsAnAddress | components/dhcpserver/dhcpserver.c:1119-1127 | A run of three messages in which a client without a reservation is taken past a reserved address to a leased one |
| LeaseExhaustion.WalkFailsIff | components/dhcpserver/dhcpserver.c:1078-1117 | For any sorted list up to the pool's end: the walk never chooses a leased address, and finds none if and only if everything from the cursor on is leased and leases outnumber addresses up to every pool address |
| LeaseExhaustion.RefusalIff | components/dhcpserver/dhcpserver.c:1115-1151 | For any pool, reservations and list: a client without a lease is refused for lack of addresses if and only if its own reservation is above the pool's end, or it has none and from the walk's choice on all addresses are reserved for others until one above it |
| LeaseExhaustion.RefusedBesideAFreeAddress | components/dhcpserver/dhcpserver.c:1097-1117 | A run of three messages after which a client is refused although the pool's first address is free |
| LeaseExpiry.AfterTick | components/dhcpserver/dhcpserver.c:1567-1607 | For every MAC, a tick ages its lease by one, drops it at zero, and takes nothing but the lease it evicts |
| LeaseExpiry.EvictionTakesTheOldest | components/dhcpserver/dhcpserver.c:1527-1559 | Eviction needs more than 16 survivors and takes a survivor no other survivor has less time than |
| LeaseExpiry.TickEvictsIff | components/dhcpserver/dhcpserver.c:1603-1606 | A tick evicts exactly one lease if the byte that counts survivors is above 16, and none otherwise |
| LeaseExpiry.ZeroTimerWraps | components/dhcpserver/dhcpserver.c:1586-1590 | A timer of zero wraps around instead of expiring |
| LeaseExpiry.LeaseLivesItsTimer | components/dhcpserver/dhcpserver.c:1567-1607 | Over any run, a lease neither refreshed, removed nor evicted has its timer less the ticks, and is gone after exactly its timer |
| LeaseExpiry.QuietTicksThinOut | components/dhcpserver/dhcpserver.c:1603-1606 | After k ticks without messages at most max(16, n - k) leases remain of any list of up to 255, in the pool or not |
| LeaseExpiry.QuietTicksThinOutIff | components/dhcpserver/dhcpserver.c:1580-1606 | That bound holds for all lists of n leases and all k if and only if n is at most 255 |
| LeaseExpiry.OfferIsHonoured | components/dhcpserver/dhcpserver.c:1078-1212 | After an offer or acknowledgement, over any run that spares the client for fewer ticks than a lease has, a request naming the address is acknowledged with it, with a full timer again |
| Reservations.Table.Add | main/dhcp_manager.c:110-149 | The in-place update of the table is the specified one, status included |
| Reservations.Table.Delete | main/dhcp_manager.c:151-166 | Deleting clears the valid flag of the MAC's entry and nothing else |
| Reservations.AddUpdatesMap | main/dhcp_manager.c:110-149 | Adding is a map update; it fails if and only if the MAC is new and the table is full, and then changes nothing |
| Reservations.DeleteRemovesKey | main/dhcp_manager.c:151-166 | Deleting removes the key and keeps every other, as long as no MAC has two entries, which adding and deleting preserve |
| Reservations.ReservedForOtherIff | main/dhcp_manager.c:184-204 | The reverse search answers whether some other MAC's lookup is that address |
| DhcpOptions.ParseOptions | components/dhcpserver/dhcpserver.c:913-1044 | For all bytes the walk terminates in bounds, and its verdict and host name are those of the decoded options, last occurrence counting |
| DhcpOptions.BuildOptions | components/dhcpserver/dhcpserver.c:427-546 | Writing message type, reply options and END puts exactly their encoding into memory behind the cookie, with nothing to stop it at the end of the message |
| DhcpOptions.AddOfferOptions | components/dhcpserver/dhcpserver.c:441-526 | The options of an offer or acknowledgement, in order, appended to what the block holds |
| DhcpOptions.DecodeEncoded | components/dhcpserver/dhcpserver.c:921-999 | Any block of options that fit their length byte, followed by END and anything, decodes to those options and stops at END |
| DhcpReplies.ReadBlock | components/dhcpserver/dhcpserver.c:929-999 | Any options with any padding between them are read in order, up to END or up to where the message is cut off |
| DhcpReplies.LastCounts | components/dhcpserver/dhcpserver.c:957-996 | Of several options with a code, the last with enough data counts |
| DhcpReplies.RepliesAnnounce | components/dhcpserver/dhcpserver.c:441-526 | Every field of an offer or acknowledgement, octet by octet and in order, for every setting; a refusal carries its type alone |
| DhcpOptions.SentMessageDecodesIff | components/dhcpserver/dhcpserver.c:655-697 | What is sent of the message decodes to the emitted options and reaches END if and only if the URI has at most 255 bytes and the options, of a size given outright, fit the message of max(548, request) bytes |
| DhcpOptions.LongPortalLosesTheEnd | components/dhcpserver/dhcpserver.c:838-880 | With router, one DNS server and a URI of 252 bytes the message decodes if and only if the request had at least 549 bytes |
| DhcpOptions.BlockSizeIs | components/dhcpserver/dhcpserver.c:427-546 | The number of bytes written, for every setting |
| DhcpOptions.CutOffBlock | components/dhcpserver/dhcpserver.c:921-999 | In a block cut off anywhere before the end of its END no walk reaches an END |
| DhcpOptions.LeaseTimeDecodes | components/dhcpserver/dhcpserver.c:452-461 | The emitted lease time decodes to the lease time in seconds modulo 2^32, the server identifier to the server's address |
| RingBuffer.StoredExtends | components/pcap_capture/pcap_ringbuf.c:157-170 | Copying a record at the head, across the wrap, appends it to what is seen from the tail |
| RingBuffer.Ring.TryWrite | components/pcap_capture/pcap_ringbuf.c:130-177 | Appends the whole record, or drops it and counts it, when there is no room or the mutex is busy |
| RingBuffer.Ring.TakeUpTo | components/pcap_capture/pcap_ringbuf.c:179-223 | Returns and removes the oldest min(max, available) bytes, consuming the signal and renewing it when bytes remain |
| RingBuffer.Ring.Peek | components/pcap_capture/pcap_ringbuf.c:225-252 | Returns the oldest min(max, available) bytes across the wrap |
| RingBuffer.Ring.SkipUpTo | components/pcap_capture/pcap_ringbuf.c:254-270 | Drops the oldest min(length, available) bytes and nothing else |
| RingBuffer.Ring.Clear | components/pcap_capture/pcap_ringbuf.c:116-128 | Empties the queue and the drop count, leaving the semaphore |
| RingBuffer.RunConserves | components/pcap_capture/pcap_ringbuf.c:130-270 | Over any run without reset: bytes leave in the order accepted, none lost or invented, and accepted plus dropped equals attempted writes |
| CaptureRecords.BuildRecord | components/pcap_capture/pcap_capture.c:272-308 | Copying a buffer chain yields the record of the packet: header and the first min(total, snaplen) bytes |
| CaptureRecords.RecordDecodes | components/pcap_capture/pcap_capture.c:278-308 | Lengths, times and captured bytes can be read back from a record |
| CaptureRecords.FileHeaderBytes | components/pcap_capture/pcap_capture.c:66-75 | All 24 bytes of the file header |
| CaptureRecords.Settings.SetSnaplen | components/pcap_capture/pcap_capture.c:396-405 | The snaplen stays between 64 and 1600, so a record fits its buffer |
| CaptureRecords.CountPackets | esp_nat_bridge.py:1076-1082 | The counting loop terminates for all bytes and counts what its recursive meaning counts |
| CaptureRecords.CountsWholeHeaders | esp_nat_bridge.py:1076-1082 | On any prefix of a capture file, the count is exactly the number of records whose 16-byte header lies wholly in it |
| CaptureProtocol.RunKeepsInv | components/pcap_capture/pcap_ringbuf.c:116-223 | In every interleaving: mutual exclusion, bounded queue, and no unannounced bytes |
| CaptureProtocol.NoLostWakeUp | components/pcap_capture/pcap_ringbuf.c:130-223 | From an empty ring with any number of writers and resets: bytes in the ring mean the semaphore is signalled, a writer is about to signal, or the reader is on its way |
| CaptureProtocol.ReaderIsServed | components/pcap_capture/pcap_ringbuf.c:130-223 | From every such state with bytes in the ring, the steps already under way lead to the reader taking bytes, or to a reset under way emptying the ring |
| CaptureProtocol.RunKeepsTraced | components/pcap_capture/pcap_capture.c:272-312 | In every interleaving, resets included, the accepted records are those of a subsequence of the offered captures, in order, each at the snaplen in force when it was built |
| CaptureProtocol.OfferedWereCaptured | components/pcap_capture/pcap_capture.c:272-312 | Nothing is offered to the ring that was not captured in the run |
| CaptureProtocol.RunKeepsUniform | components/pcap_capture/pcap_capture.c:66-75 | While nobody changes the snaplen, the one in the file header is the one of every record |
| CaptureProtocol.CaptureRoundTrip | components/pcap_capture/pcap_capture.c:170-200 | Without resets: the accepted records hold, in order, the first min(total, snaplen) bytes of a subsequence of the offered packets, whatever the client has received is a prefix of file header and those records, and the client's count is the records whose header arrived |
| CaptureProtocol.UninterruptedWrite | components/pcap_capture/pcap_ringbuf.c:130-177 | A writer's steps without interruption are one write of the queue |
| CaptureProtocol.UninterruptedRead | components/pcap_capture/pcap_ringbuf.c:179-223 | The reader's steps without interruption are one read of the queue |
| CaptureProtocol.UninterruptedEmptyRead | components/pcap_capture/pcap_ringbuf.c:185-196 | A read of an empty ring takes the signal and returns nothing |
| CaptureProtocol.UninterruptedReset | components/pcap_capture/pcap_ringbuf.c:116-128 | A reset's steps without interruption empty the queue and nothing else |
| CaptureProtocol.CaptureIsOffered | components/pcap_capture/pcap_capture.c:272-312 | A capture is offered at the snaplen in force, and dropped if the mutex is taken |
| CaptureProtocol.RunSetsSnaplen | components/pcap_capture/pcap_capture.c:396-405 | At every moment of a run the snaplen in force is the one set last |
| CaptureProtocol.HeaderComesFirst | components/pcap_capture/pcap_capture.c:170-176 | A session starts with the file header at the snaplen in force |
| Checksum.FoldLoop | main/netif_hooks.c:303-306 | The folding loop terminates and computes the end-around-carry fold |
| Checksum.VerifiesIff | main/netif_hooks.c:297-307 | A block verifies if and only if its word sum is positive and divisible by 0xFFFF |
| Checksum.IncrementalCongruent | main/netif_hooks.c:297-307 | RFC 1624 equation 3 balances the change of the word modulo 0xFFFF, for every old checksum |
| Checksum.ByteOrderIndependent | main/netif_hooks.c:297-307 | Summing words as the CPU loads them accepts exactly what network order accepts |
| Checksum.StoredChecksumVerifies | main/netif_hooks.c:551-568 | Storing the checksum of a block with a zeroed checksum field makes the block verify |
| TtlOverride.Override | main/netif_hooks.c:282-310 | The in-place rewrite, folding loop included, is the specified one, and frames it does not apply to stay as they are |
| TtlOverride.OnlyTtlAndChecksumChange | main/netif_hooks.c:282-310 | Only the TTL and checksum bytes can differ, and the TTL is the configured one |
| TtlOverride.OverriddenIff | main/netif_hooks.c:285-294 | From the bytes: exactly the IPv4 frames with 34 bytes in the first buffer get the configured TTL, all others stay |
| TtlOverride.OverrideKeepsHeaderValidity | main/netif_hooks.c:297-307 | For every header length, TTL and old checksum, the header verifies after if and only if it did before, in both byte orders, even when it continues in the next buffer |
| MssClamp.ScanOptions | main/netif_hooks.c:460-485 | For all bytes the option scan terminates, stays in bounds and finds the first MSS option |
| MssClamp.Clamp | main/netif_hooks.c:435-487 | Guards, scan and in-place rewrite together are the specified function of the frame |
| MssClamp.ClampTouches | main/netif_hooks.c:470-483 | Only the two MSS bytes and the two checksum bytes can change, and the scan still reaches the same option |
| MssClamp.ClampLimits | main/netif_hooks.c:470-483 | The MSS afterwards is the smaller of the old value and the limit |
| MssClamp.ClampIsIdempotent | main/netif_hooks.c:435-487 | Clamping twice is clamping once |
| MssFrames.SynIsClamped | main/netif_hooks.c:444-487 | Every SYN built from its parts, with any other flags, header lengths and options before it: the MSS becomes the smaller of it and the limit, and only checksum bytes change besides |
| MssFrames.OthersStay | main/netif_hooks.c:454-486 | A TCP frame without SYN, or whose options end before an MSS option, stays as it is |
| MssFrames.NotASynStays | main/netif_hooks.c:436-457 | From the bytes: what is not IPv4, not TCP, without SYN bit or too short for its headers stays as it is |
| MssClamp.ClampKeepsTcpChecksumIff | main/netif_hooks.c:470-483 | A valid TCP checksum, pseudo-header included, stays valid if and only if nothing is clamped, the value is at an even offset, or old and new MSS differ by a multiple of 257 |
| MssClamp.MisalignedClampBreaksChecksum | main/netif_hooks.c:470-483 | A SYN with a NOP before its MSS option and a valid checksum no longer verifies after clamping to 1400 |
| FragNeeded.BuildReply | main/netif_hooks.c:492-572 | A reply is built for exactly the triggering frames, and its bytes are the specified ones; the header is copied from memory by its length field |
| FragNeeded.RepliesIff | main/netif_hooks.c:494-519 | From the bytes: a reply is built if and only if the frame is IPv4, not ICMP, has DF set and offset zero, exceeds the MTU, and its buffer and header are long enough |
| FragNeeded.ReplyFixedFields | main/netif_hooks.c:525-564 | The reply's length, type, version, TTL, protocol, and ICMP type and code, byte by byte |
| FragNeeded.ReplyIsWellFormed | main/netif_hooks.c:521-568 | For every triggering frame lengths add up, IP and ICMP checksums verify for odd and even quotes, the MTU decodes, addresses are swapped, and the quote is what memory holds from the original header on |
| FragNeeded.QuotesThePacketIff | main/netif_hooks.c:518-567 | The reply is determined by the packet alone, whatever lies behind it in memory, if and only if the first buffer holds the whole IP header |
| FragNeeded.ShortFrameIsNotQuoted | main/netif_hooks.c:518-567 | A frame of 34 bytes with a header length of 60 for which the reply depends on the memory behind it |
| FragNeeded.QuoteLength | main/netif_hooks.c:521-528 | The quote is at most 68 bytes and has all eight data bytes if and only if the first buffer holds them |
| ClientStats.Table.OnConnect | main/netif_hooks.c:143-172 | The in-place update with its single search for a free slot is the specified one |
| ClientStats.Table.OnDisconnect | main/netif_hooks.c:174-179 | Only the leaving client's connected flag changes |
| ClientStats.Table.OnTraffic | main/netif_hooks.c:683-691 | The client's active slot, if it has one, counts the traffic, and nothing else changes |
| ClientStats.ConnectSucceedsIff | main/netif_hooks.c:143-172 | A connecting client gets a slot if and only if it still holds one or some slot is not taken |
| ClientStats.NewcomerFits | main/netif_hooks.c:150-161 | Pigeonhole: within the client limit there is always a slot for a newcomer |
| ClientStats.NewcomerTakes | main/netif_hooks.c:150-162 | A newcomer takes no active slot while an inactive one exists, and never a connected client's |
| ClientStats.NewcomerTakesFirst | main/netif_hooks.c:150-171 | It takes the first inactive slot, or without one the first whose client has left, with all counters at zero |
| ClientStats.StepKeepsInv | main/netif_hooks.c:143-179 | Every event keeps one active slot per connected client, and never moves a client that stays |
| ClientStats.FromAnEmptyTable | main/netif_hooks.c:143-179 | Over any run from an empty table within the limit, every connected client owns exactly one active slot, and no other slot is taken |
| ClientStats.CountersAddUp | main/netif_hooks.c:683-691 | A client that stays connected keeps its slot and its counters grow by exactly its own traffic |
| ClientStats.NewcomerStartsFromZero | main/netif_hooks.c:163-171 | Over any run, a client without a slot that connects and stays has exactly its own traffic on its counters |
| ClientStats.TrafficIsCounted | main/netif_hooks.c:683-691 | Traffic is added counter by counter to the client's slot alone |
| ClientStats.LeavingOnlyDisconnects | main/netif_hooks.c:174-179 | Leaving keeps slot and counters |
| ClientStats.ReturningClientKeepsCounters | main/netif_hooks.c:144-149 | A client that returns before its slot is given away finds its counters unchanged, over any run between |
| AclFirewall.RuleList.IsEmpty | components/acl/acl.c:91-97 | The count alone tells whether the rule list is empty |
| AclFirewall.RuleList.Recount | components/acl/acl.c:107-122 | Recounting restores the count whatever it was |
| AclFirewall.RuleList.Add | components/acl/acl.c:153-196 | Appends the rule with masked addresses, or fails if and only if the table is full |
| AclFirewall.RuleList.Delete | components/acl/acl.c:198-230 | Removes exactly that position and keeps the order, by compaction of the array; fails if and only if there is no such rule |
| AclFirewall.RuleList.Match | components/acl/acl.c:302-374 | First match on the list decides, its hit counter grows by one, and so does exactly the statistic of the verdict |
| AclFirewall.CountedOnce | components/acl/acl.c:355-372 | Every checked packet is counted once, as allowed exactly when the action bit of its rule is set |
| AclFirewall.RuleList.CheckFrame | components/acl/acl.c:238-374 | With the count as gate, the verdict on any bytes is the one without a gate |
| AclFirewall.Firewall.Load | components/acl/acl_nvs.c:52-101 | After loading, every list is the saved one with hits forgotten, or empty if flash has none, and all counts are right |
| AclFirewall.Firewall.Save | components/acl/acl_nvs.c:15-50 | Flash holds every list as it is |
| AclFirewall.Firewall.SaveAndReload | components/acl/acl_nvs.c:15-101 | Saving and reloading restores the rules with hit counts zeroed and changes no verdict on any packet |
| AclRules.PrefixRuleMatchesIff | components/acl/acl.c:317-345 | A stored rule matches a packet if and only if both addresses agree on the prefix bits and protocol and ports fit, ports only for TCP and UDP |
| AclPackets.ParsedIff | components/acl/acl.c:244-300 | For any bytes: whether a packet is read, and from which bytes its addresses, protocol and ports come |
| AclPackets.FrameReads | components/acl/acl.c:251-300 | A frame built from an IPv4 header of any length and a transport part is read as just that, source as source |
| AclPackets.BareReads | components/acl/acl.c:248-265 | So is a bare packet, exactly unless its source address looks like a frame's type |
| AclPackets.BarePacketIsMissed | components/acl/acl.c:251-265 | Every bare packet from 5.0.0.1 passes every list |
| AclPackets.FrameDecided | components/acl/acl.c:244-374 | From rules as entered and a frame's parts to the verdict: action bit and monitoring bit of the first rule that covers them, else 255 |
| AclPackets.UnreadPasses | components/acl/acl.c:251-280 | ARP, IPv6, length fields, other IP versions and short buffers pass |
| AclPackets.OneHit | components/acl/acl.c:347-349 | The deciding rule counts one hit, modulo 2^32, and nothing else changes |
| AclPackets.HitsForgotten | components/acl/acl_nvs.c:77-82 | Loading sets hit counts to zero and leaves the rest of a rule |
| AclRules.VerdictOfParts | components/acl/acl.c:309-368 | In a list of two parts the second decides exactly what the first does not |
| AclRules.AppendDecidesTheRest | components/acl/acl.c:179-190 | An added rule decides only packets nothing before decided |
| AclRules.DeleteChangesOnlyItsOwn | components/acl/acl.c:211-222 | Deleting changes the verdict only on packets the rule decided, which fall to the rules behind it |
| AclRules.CountingIsHarmless | components/acl/acl.c:347-353 | Counting a hit changes no verdict |
| AclRules.ForgettingIsHarmless | components/acl/acl_nvs.c:77-82 | Forgetting hit counts changes no verdict |
| Bits.HostMaskIs | components/acl/acl.c:529-536 | The shift builds n one bits followed by 32 - n zero bits, for every n from 0 to 32 |
| Bits.MaskedMatchIff | components/acl/acl.c:322-330 | Masked comparison in network order is agreement on the first n bits in host order |
| Bits.CountBits | components/acl/acl.c:454-464 | The loop counts the one bits |
| Bits.BitCountStep | components/acl/acl.c:459-462 | Each one bit of any mask counts once |
| Bits.CountInvertsMask | components/acl/acl.c:454-464 | Counting the bits of a prefix mask gives back its length |
| AclAddress.ParseIsCanonical | components/acl/acl.c:492-542 | Whatever is parsed is a prefix mask and an address without host bits |
| AclAddress.RoundTripIff | components/acl/acl.c:466-542 | Formatting then parsing gives a pair back if and only if it is a prefix mask of length 0 to 32 with an address without host bits; "any" and bare addresses included |
| AclAddress.TypedPrefixIs | components/acl/acl.c:505-541 | Four numbers and a prefix length as typed: accepted if and only if the numbers are up to 255 and the length up to 32, host bits cleared |
| AclAddress.TypedAddressIs | components/acl/acl.c:505-541 | Four numbers as typed stand for that address alone |
| AclAddress.WordsAndDigits | components/acl/acl.c:466-503 | "any" in any case, and what is printed, first octet first |
| AclAddress.DigitsOf | components/acl/acl.c:482-487 | Numbers are printed in base ten, most significant digit first |
| AclAddress.AtoiReads | components/acl/acl.c:513-518 | The number behind the slash: white space, one sign, digits, and nothing behind them |
| AclAddress.ThirtyOneCount | components/acl/acl.c:505-508 | Exactly the first 31 characters count |
| AclAddress.FormatFits | components/acl/acl.c:466-490 | The text is cut only as far as its terminator needs |
| PercentCodec.UrlEncode | components/http_server/http_server.c:3126-3147 | For every destination size from 1 the bounded encoder writes the encoding of the longest prefix that fits, never part of an escape, and a terminator |
| PercentCodec.WholeSourceIff | components/http_server/http_server.c:3131-3143 | The whole source is encoded if and only if its encoding fits, in particular into more than three times its length |
| PercentCodec.EncodeByteIs | components/http_server/http_server.c:3132-3140 | Which bytes stand for themselves, and the two upper-case digits of all others |
| PercentCodec.DecodeInPlace | components/cmd_router/cmd_router.c:154-177 | The two-pointer decoder never overtakes its read position and leaves the decoding of the original text, terminated |
| PercentCodec.DecodePieces | components/cmd_router/cmd_router.c:158-175 | Any mixture of plain bytes, '+' for a blank and escapes in either case decodes piece by piece |
| PercentCodec.LonePercent | components/cmd_router/cmd_router.c:160-174 | A '%' without two hex digits behind it stands for itself |
| PercentCodec.EncodeDecodeRoundTrip | components/cmd_router/cmd_router.c:154-177 | Decoding what the encoder wrote yields a prefix of the source, and the whole source if and only if its encoding fit |
| PercentCodec.EncodedIsText | components/http_server/http_server.c:3131-3146 | The encoding has no NUL, so the decoder sees all of it |

## Left out

- The web pages, console commands, MQTT, displays, LEDs, OTA, VPN, port mapping and address translation: input and output, or state that lives in lwIP, which is not part of this model.
- `connect_count` has no balance invariant: blocked clients are not counted up but are counted down.
- DHCP transport: receiving, the fixed part of a message, sending, ARP and callbacks; a message is its cookie check, MAC, `ciaddr` and option bytes, and a reply is its verdict, address and options.
- DHCP timer: the ticks of a fresh lease (lease time times unit over the tick length) are a parameter of the pool.
- DHCP allocation failure: a failed `calloc` is not modelled.
- DHCP node and lease record are one object, since they are allocated, linked and freed together; freeing is leaving the list.
- DhcpOptions.BuildOptions: the repeated stores of one option are one method; memory is as long as the writing reaches, and what a block longer than the message overwrites is not modelled. Requests are at most 32767 bytes.
- Pools and masks other than 255.255.255.0: the default mask of the access point is modelled.
- LeaseInvariants.ReachableWithoutReservations: demands that no reservation is in force and that the pool ends below host 255, because addresses can repeat otherwise; LeaseSharing.RunSharesIff and PoolRepeats.RepeatsIff say when, and LeaseInvariants.RunStaysSound has no such demands.
- LeaseAllocation.AllocationIsComplete: demands a pool that ends below host 255; PoolWrap.FullPoolServesIff says that it fails for the others.
- LeaseInvariants.FreshAddressesRotate: demands a pool that ends below host 255; behind host 255 the next address compares below the pool.
- ConfiguredPools.RouterKeepsItsAddress: demands that a pool set by hand leaves out hosts 0 and 255, which the code does not check; ConfiguredPools.ConfiguredPoolLeasesUnfitIff has no such demand.
- LeaseExhaustion.WalkFailsIff: demands fewer than 256 leases less the pool's first host; with more, the fallback search wraps into the next /24.
- DhcpServer.Server.ParseMsg: a message too short for options is one with no option bytes.
- Reservations.Table.Add: the write to flash and its error are left out.
- LeaseExpiry.EvictionTakesTheOldest: 16 is MAX_STATION_NUM as set in sdkconfig.defaults.
- LeaseExpiry.QuietTicksThinOutIff: lists of up to 2^48 leases; there are no more hardware addresses.
- Ring allocation and freeing: the ring exists throughout; the drain at the end of allocation can swallow a signal, so runs start after it. The header file says the semaphores outlive freeing, but the code deletes them, so use after freeing is not modelled.
- RingBuffer.RunConserves: runs have no reset, which discards bytes and the drop count; CaptureProtocol.NoLostWakeUp covers resets.
- RingBuffer.Ring.TryWrite: the drop count does not wrap at 32 bits.
- CaptureProtocol.CaptureRoundTrip: no reset during the session; sockets may deliver any prefix of what was sent; a record reads the snaplen once.
- CaptureProtocol.ReaderIsServed: shows the steps that serve the reader, not that a scheduler takes them.
- Capture modes and the counter of captured packets.
- MssClamp.ClampKeepsTcpChecksumIff: demands an IP header length of at least 20 and a total length that covers the TCP header and lies in the buffer chain, without which there is no segment to checksum.
- FragNeeded.BuildReply: memory behind the first buffer can be read; handing the frame to the link is left out.
- `inet_chksum`, `htonl` and `htons` have their standard meaning.
- ClientStats.Table.OnConnect: counters are unbounded.
- Per-client traffic totals of the uplink, and the switch that turns counting off.
- AclFirewall.RuleList.Match: statistics do not wrap at 32 bits (hit counts do); logging of denials and its rate limit are left out.
- AclFirewall.Firewall.Save: flash is a map; write errors are left out.
- AclFirewall.Firewall.Load: the lists are emptied and filled one after the other instead of all emptied first, and read errors other than a missing entry are left out.
- AclAddress.ParseIsCanonical: address text is four decimal numbers up to 255; lwIP's shorter, octal and hexadecimal forms are not modelled, and `atoi` does not overflow.
- PercentCodec.UrlEncode: a destination of size 0, for which the source's bound wraps around.
