# Verified model of the p2p message bus client

This project models the parts of the libp2p message bus client whose behaviour is decided by the client's own code
rather than by libp2p, and proves what its comments, documentation and tests promise about them:

- the life of a subscription: `Subscribe`, its reader goroutine, `Publish`, repeated `Close` calls and the discovery
  loop, as one step system with any number of each (`Lifecycle`, `SubscribeRuns`, `TopicMap`);
- the receive loop with any number of readers sharing one peer tracker, and the peer-name sanitizer with the UTF-8
  coding it works on (`ReceiveLoop`, `PeerTracking`, `Sanitizer`, `Utf8`);
- the peer-address exchange: both request framings, base58 and multihash peer IDs, the reply and its size
  (`PeerIdRequest`, `Base58`, `Multihash`, `AddressReply`), the inbound limiter (`Limiter`) and the lookup scheduler
  (`LookupScheduler`);
- the publisher allowlist against the dialer (`Allowlist`) and its lock-free drop reporter (`DropReporter`).

Code that updates state in place is modelled by classes and methods with loops (`PeerAddressLimiter`, `PeerTracker`,
`Reporter`, `AddressLookups`, `PublisherSet`, `ByteStream`), each specified by functions on which the properties are
then proved. What several goroutines do at once is modelled by a step system: one step is one critical section, atomic
operation, channel operation or library call, and a run is any schedule of steps, so a statement about every schedule
is a statement about every interleaving.

Where the code and its own comments differ, the model follows the code:

- client.go:71-73 says that a reply fits its size limit comfortably. For addresses that JSON does not have to quote it
  does exactly up to 252 bytes each. For addresses that are only free of what section 7 of RFC 8259 makes an encoder
  escape it does exactly up to 46, because Go escapes more (`AddressReply.ReplyFits`, `AddressReply.RfcReplyFits`,
  `AddressReply.HtmlEscapesOverflow`). Both bounds are reached by distinct `/dns/` addresses.
- allowlist.go:132-134 says that the allowlist and the dialer never disagree about which peer an address denotes. For
  an address that names an ID that is so, whatever DNS answers (`Allowlist.SamePeerPerEntry`). Nobody is dialed from the
  static peers whom they do not grant exactly when every dnsaddr entry names an ID (`Allowlist.DialedAreGranted`), and
  the two sets are equal, failed lookups included, exactly when another entry names each such ID without resolution
  (`Allowlist.AllowlistAgreesWithDialer`).
- types.go:16-18 and line 390 of the repository's README.md promise that a channel is closed when the client is. It is closed earlier, without
  any failure of the library, exactly when the join is refused because another Subscribe or Publish of the topic got
  there between a lookup that missed the topic and the join (`Lifecycle.LeavesEarly`, `SubscribeRuns.RefusedAfterMiss`,
  `Lifecycle.RefusedWhenHeld`, `Lifecycle.SecondSubscribeRefused`).
- allowlist.go:147 speaks of an address with no `/p2p/` component at all; the code skips every address whose last
  component is not one.
- types.go:98-102 describes the limiter's budget as per peer. Because pruning uses the caller's clock reading, taken
  before the lock (client.go:1540), this holds exactly for clocks that do not step back into an expired window
  (`Limiter.NonInterference`). The sliding bound of 1023 survives more: it holds exactly for clocks that never return
  to within a window's length of a reading once that has expired, by however little the return falls short
  (`Limiter.SlidingBoundExact`, `Limiter.ReturnExceedsBound`).
- client.go:856 says that Close releases all resources. A topic that a Publish has joined but not stored when Close
  goes through the topic map is never asked to close, even when the wait for the readers was clean
  (`Lifecycle.UnaskedAtTeardown`, `Lifecycle.PublishNeverAsked`).
- The drop marker rises with every line unless the clock reading is saturated, in which case adding one nanosecond
  wraps it around (`DropReporter.SwapRaisesMarker`).

## Model

| member | source | states |
|---|---|---|
| Lifecycle.ChannelOwnership | client.go:687-784 | In every interleaving of Subscribes, readers, Publishes and repeated Closes: a reader that can send, or is about to close, has an open channel, no channel is closed twice, and the channel of a reader that is gone is closed. |
| Lifecycle.OnlyTheOwnerCloses | client.go:688-711 | The only steps that close a channel are its own reader's on the way out and its own Subscribe's after finding the client closed. |
| Lifecycle.TeardownOrder | client.go:848-924 | The wait counter is the number of live readers, nothing is added once a Close waits, and a Close whose wait returned is about to tear down the host, or did so, with no live reader, every reader's channel closed, and every reader-joined topic asked to close (the library may refuse, which the client ignores). |
| Lifecycle.NoLostWakeUp | client.go:725-745 | A topic whose Subscribe has signalled is advertised or a copy of the topic map is due, and the next copy includes it, however signals coalesce. |
| Lifecycle.DiscoveryKept | client.go:978-1017 | No step of any goroutine loses a wake-up: the topic stays stored, and a due copy is dropped only by making it. |
| Lifecycle.ReadersLeave | client.go:1299-1353 | After cancellation a reader is never stuck and closes its channel within ten steps of its own plus three per message queued before or since, whichever ready branch its selects take. |
| Lifecycle.DistanceOverRun | client.go:708-781 | The same as an inequality along any schedule: own steps taken plus distance left never exceed the initial distance plus three per arrival. |
| Lifecycle.CancelledNotStuck | client.go:1340-1351 | Under cancellation every stage before the channel is closed has an enabled step, a full channel included, that is no failure of the library. |
| Lifecycle.LeavesEarly | client.go:688-689 | Before cancellation a reader whom the library does not fail closes its channel exactly when its join was refused. |
| Lifecycle.RefusedWhenHeld | client.go:712-728 | A reader that missed the topic in the map is refused exactly when by then the topic is in the map, or another Subscribe or Publish has joined it and not yet stored it. |
| SubscribeRuns.RefusedAfterMiss | client.go:712-728 | A reader's join is refused only after it looked for its topic in the topic map and missed it there. |
| SubscribeRuns.TakesStoredTopic | client.go:698-728 | A Subscribe on an open client whose topic is in the topic map counts itself in and takes the topic from there, without a join. |
| SubscribeRuns.JoinsMissingTopic | client.go:717-728 | If the topic is not there and nobody has it open, the reader joins it and puts the new handle there. |
| SubscribeRuns.ReachesReceiving | client.go:730-780 | From its topic on, a reader subscribes, stores the subscription, signals and starts to receive. |
| SubscribeRuns.RefusesWhenClosed | client.go:698-704 | A Subscribe on a closed client closes its channel at once, counts no reader and changes nothing else. |
| SubscribeRuns.MessageGetsThrough | client.go:1340-1351 | A waiting message reaches the consumer's channel if there is room, and the reader is ready for the next. |
| SubscribeRuns.MessageIsDropped | client.go:1315-1333 | A dropped one leaves the channel as it was, and the reader is ready for the next. |
| SubscribeRuns.QueueAndChannel | client.go:1299-1352 | What arrives waits in the subscription, and what is consumed leaves the channel. |
| SubscribeRuns.LeavesInOrder | client.go:708-711 | A reader on its way out closes its channel first and counts itself out then. |
| SubscribeRuns.PublishComesByTopic | client.go:787-802 | A Publish takes its topic from the topic map if it is there, and otherwise joins it and puts it there. |
| SubscribeRuns.PublishRefusedAfterMiss | client.go:788-797 | A Publish's join is refused only after it missed the topic in the topic map. |
| SubscribeRuns.PublishRefusedWhenHeld | client.go:792-797 | And exactly when somebody holds the topic by then. |
| SubscribeRuns.PublishesOnlyStored | client.go:787-818 | In every run a Publish goes on to publish only with its topic in the topic map. |
| SubscribeRuns.CloseTearsDown | client.go:865-915 | Whatever the readers do, a Close call is never stuck, and has torn down the host exactly when it has taken its seven steps. |
| SubscribeRuns.WakeUpsUseSignals | client.go:741-745 | Every wake-up of the discovery loop uses up a signal of some Subscribe. |
| SubscribeRuns.WakeUpIsServed | client.go:1006-1016 | A waiting signal can be taken by an idle loop, which copies the topic map and is idle again. |
| SubscribeRuns.LoopEnds | client.go:1006-1009 | After cancellation an idle loop can end. |
| Lifecycle.SecondSubscribeRefused | client.go:712-728 | It happens: of two concurrent Subscribes of one topic the second closes its channel on an open client, with no failure of the library. |
| Lifecycle.CloseKeepsOrder | client.go:884-913 | Going through the topic map after a wait that returned asks every topic that a reader ever joined to close. |
| Lifecycle.UnaskedAtTeardown | client.go:899-913 | When a Close whose wait returned is about to tear down the host, the handles never asked to close are exactly those that a Publish joined and that were in the topic map at no pass over it. |
| Lifecycle.PublishNeverAsked | client.go:787-802 | It happens: a Publish that stores its topic after the pass leaves it in the map of a client that has torn down its host cleanly, never asked to close. |
| Lifecycle.EveryRunOk | client.go:865-924 | Ownership, counting, topic-handle, holder and discovery invariants hold together in every reachable state. |
| TopicMap.StoreKeeps | client.go:717-728 | Storing a joined handle, although check and join are not atomic, never loses a handle that has not been asked to close. |
| TopicMap.CloseStoredKeeps | client.go:899-904 | Going through the topic map asks every handle that was ever put into it to close, whichever of them then fail to; a topic whose handle closes can be joined again. |
| ReceiveLoop.MalformedLatch | client.go:1285-1297 | With N concurrent readers a peer is skipped exactly from its fifth recorded malformed message, the transition is reported exactly once, and its count stays within N + 4. |
| ReceiveLoop.MalformedBoundAttained | client.go:1320-1333 | With any number of readers some run reaches the bound N + 4. |
| ReceiveLoop.SkippedIsPermanent | types.go:162-168 | In any run a skipped peer stays skipped. |
| ReceiveLoop.StoredNamesAreSanitized | types.go:170-178 | Every stored name, in every run, is valid UTF-8, printable and at most 64 bytes. |
| ReceiveLoop.ChannelIsASelection | client.go:1299-1353 | With any number of readers, what went through a reader's channel is, in stream order, a selection of its wanted messages under sanitized names by recorded authors, and a candidate is missing only when the readers together saw five malformed messages from its author; the buffer holds at most 100. |
| ReceiveLoop.SoleReaderRefinesFilter | client.go:1315-1352 | For one reader, received plus buffered is exactly the filter of the messages finished with: not its own, parseable, preceded by fewer than five malformed ones from that author; a prefix of the filter of the whole stream. |
| ReceiveLoop.FilterIsDelivered | client.go:1299-1353 | The whole of what the filter keeps of a stream can reach the consumer of a lone reader. |
| ReceiveLoop.ReadersProgress | client.go:1300-1352 | In every run a reader that has not exited can go on exactly if it has a message and room for it, and every such step brings it nearer to the end of its stream. |
| ReceiveLoop.CancelFrees | client.go:1308-1310 | After cancellation a reader can leave from where it may block. |
| ReceiveLoop.TopicPeersAreRecorded | types.go:214-219 | In every run the topic peers are exactly the authors of recorded messages, each with the time of the last one. |
| ReceiveLoop.ReceiveMessages | client.go:1299-1353 | The loop over a tracker in any state yields the filtered stream, counting the malformed messages that the tracker knew of already, and records every delivered author as a topic peer. |
| ReceiveLoop.EveryRunOk | types.go:147-177 | The latch, selection and clean-name invariants hold together in every reachable state. |
| PeerTracking.PeerTracker.RecordMalformed | types.go:147-160 | The new tracker state, the count, and whether this call moved the peer into the skipped state; everything else is unchanged, and a peer stays skipped exactly from its fifth on. |
| PeerTracking.PeerTracker.UpdateName | types.go:170-178 | Stores and returns the sanitized name and changes nothing else. |
| PeerTracking.PeerTracker.RecordMessageFrom | types.go:214-219 | Adds the peer to the topic peers with its time and changes nothing else. |
| PeerTracking.PeerTracker.GetAllTopicPeers | types.go:221-229 | Lists every topic peer once and nobody else. |
| Sanitizer.SanitizePeerName | types.go:180-203 | The byte loop that looks for a rune start yields the longest run of whole printable runes that fits in 64 bytes. |
| Sanitizer.SanitizedIsLongestPrintable | types.go:180-203 | The result is valid UTF-8, printable, at most 64 bytes, and the longest whole-rune prefix of the printable runes of the name's first 256 bytes, all of them and in order, so at least 61 bytes when cut. |
| Sanitizer.SanitizedIsFixedPoint | types.go:180-203 | Sanitizing changes nothing exactly on valid printable names of at most 64 bytes. |
| Sanitizer.SanitizeTwice | types.go:170-178 | Sanitizing twice is sanitizing once. |
| Sanitizer.FittingEnds | types.go:195-202 | Where the longest fitting pieces end a rune starts, and none starts between there and the limit. |
| Utf8.RoundTrip | types.go:188-193 | Decoding the encoding of any runes gives them back, and the encoding is valid (section 4 of RFC 3629). |
| Utf8.DecodeSteps | types.go:182-193 | Decoding takes an encoded rune off the front, or else one byte for U+FFFD. |
| Utf8.ValidMeansUnchanged | types.go:182-193 | Decoding and encoding again leaves a string alone exactly when it is valid UTF-8. |
| PeerIdRequest.ReadPeerIdRequest | client.go:1598-1631 | However the stream is cut up, the 1.1.0 result is decided by its bytes up to the end alone and the 1.0.0 result by its first chunk; at most 129 bytes are consumed. |
| PeerIdRequest.ReadAllUpTo | client.go:1603-1604 | Outcome and consumption of the bounded read depend on the bytes and the end only, never on the chunks or the buffer sizes. |
| PeerIdRequest.HalfClosedRequest | client.go:1588-1589 | The text of a well-formed ID of at least 34 bytes is rejected as too large over 128 bytes, and otherwise answered for that very ID exactly when it is in a base58 form or the CID decoder reads it back; IDs up to 64 bytes fit. |
| PeerIdRequest.RejectedRequests | client.go:1603-1613 | Whatever the bytes, more than 128 are too large, and a failed read before that is an error. |
| PeerIdRequest.AnswersAreDecoded | client.go:1615-1620 | What is answered is exactly what the text decodes to, if that is a peer ID of 34 bytes or more. |
| PeerIdRequest.LegacyRightPeerOrFailure | client.go:1590-1597 | A 1.0.0 request cut up in any way is answered for the requested ID exactly when its first chunk holds the whole text, and rejected otherwise. |
| PeerIdRequest.TruncatedRightPeerOrFailure | client.go:1586-1621 | A half-closed request that stops part-way through a real ID's text is rejected, never answered for another peer. |
| PeerIdRequest.PartIsRightOrRejected | client.go:1611-1620 | Any prefix of a real ID's text yields that ID if it is the whole text and an error otherwise. |
| Multihash.ProperPrefixIsNoPeer | client.go:1592-1597 | For the three key-derived ID shapes no proper prefix of the base58 text decodes to an ID of 34 bytes or more. |
| Multihash.ShortPrefixIsAnotherPeer | client.go:63-66 | The length check is needed: twelve characters of any Ed25519 ID's text decode to a different, well-formed, nine-byte ID. |
| Multihash.WholeTextDecodesIff | client.go:1504 | The whole text of a well-formed ID decodes to that ID exactly when it starts like a base58 ID or the CID decoder reads it back. |
| Multihash.Ed25519Prefix | client.go:1593-1596 | Dropping any number of characters from a 38-byte ID's text leaves fewer than 34 bytes or an ill-formed multihash. |
| Multihash.Secp256k1Prefix | client.go:1593-1596 | The same for a 39-byte ID. |
| Multihash.TextLength | client.go:59-61 | A text is at most twice as long as its ID. |
| Multihash.WellFormedIsMultihash | client.go:1592-1597 | Exactly the multihashes are well-formed: a code, a length and that many bytes, as minimal varints of at most nine bytes. |
| Base58.DecodeEncode | client.go:1615 | Decoding the base58 text of any bytes gives them back, leading zeros included. |
| Base58.EncodeDecode | client.go:1615 | Every base58 text is the encoding of what it decodes to, so no two texts decode alike. |
| Base58.DigitsAreAlphabet | client.go:1504 | The digits are, in ASCII order, the letters and figures without 0, I, O and l (draft-msporny-base58). |
| AddressReply.DirectPeerAddresses | client.go:1636-1650 | The reply lists the first 32 addresses, in order, that are not relay circuits. |
| AddressReply.ReplyIsFirstDirect | client.go:1633-1650 | The reply is the first 32, or all, of the addresses without a relay-circuit component anywhere in them, all of those and in peerstore order. |
| AddressReply.ReplyFits | client.go:68-75 | Every reply of plain addresses of up to 252 bytes fits in 8192 bytes, whatever the peerstore holds, and 252 is the largest such length even for distinct multiaddr texts. |
| AddressReply.RfcReplyFits | client.go:71-73 | For distinct multiaddr texts free of what RFC 8259 makes an encoder escape, every reply fits exactly if they are at most 46 bytes; where only the leading slash is fixed, at most 42. |
| AddressReply.HtmlEscapesOverflow | client.go:71-73 | A full peerstore of distinct 47-byte /dns/ addresses that RFC 8259 leaves alone overflows the limit. |
| AddressReply.BodyLength | client.go:1576 | Encoding a string never shortens it, and keeps its length exactly when nothing in it has to be escaped or replaced. |
| AddressReply.MarshalReadsBack | client.go:1523-1528 | Reading the JSON text of an array back gives the array, with U+FFFD for what is not UTF-8: nothing is lost, added, reordered or changed. |
| AddressReply.ReadReply | client.go:1514-1521 | The requester takes the reply up to the limit, rejects a longer one as too large, and reports a failed read. |
| AddressReply.ReceivedExactly | client.go:1515-1521 | The requester's size check accepts exactly what ends within 8192 bytes, whole, and calls longer replies too large. |
| AddressReply.PlainReplyIsReceived | client.go:1571-1583 | What a responder sends for plain addresses of up to 252 bytes is a reply that the requester takes whole and reads the same addresses from. |
| Limiter.PeerAddressLimiter.Allow | types.go:98-124 | The whole new map after pruning and charging, that every entry left started within the last window, and both results. |
| Limiter.NonInterference | types.go:98-124 | On clocks that never step back into an expired window, pruning by everyone's calls leaves every peer's budget and first-rejection flag as if it were alone; on any other clock it does not, whichever two peers make the calls. |
| Limiter.SharedAgreesWithSolo | types.go:107-119 | On such clocks a peer's entry is its own automaton's state, or was pruned because that had expired. |
| Limiter.FlagOnFirstRejection | types.go:98-101 | On any clock the flag is raised exactly on a rejection whose peer's previous request was granted. |
| Limiter.FirstIsGranted | types.go:111-123 | A peer's very first request is granted, without a flag. |
| Limiter.RejectedByCount | types.go:111-123 | On any clock a request is rejected exactly if it is later than the 512th of its peer since one that opened a window not expired since, and flagged exactly if it is the 513th. |
| Limiter.GrantsAreSolo | types.go:103-124 | The grants of a peer within any span are those of its own automaton. |
| Limiter.StoredWindowsAreRecent | types.go:101-102 | After every call each stored entry was started by a request of its peer within the last window. |
| Limiter.SlidingBound | client.go:81-86 | On clocks that never return to within a window's length of an expired reading no peer is granted more than 1023 requests in any half-open interval of a window's length. |
| Limiter.SlidingBoundExact | client.go:81-86 | Any two peers keep to 1023, whatever requests they make at given clock readings, exactly if the clock never returns to within a window's length of a reading that it has expired; and then so does everyone else. Clocks that do not step back into an expired window are such. |
| Limiter.SoloSlidingBound | types.go:111-123 | The same bound for one peer's own automaton. |
| Limiter.SlidingBoundAttained | client.go:81-86 | Any peer can reach the bound 1023, on a clock that never falls. |
| Limiter.ReturnExceedsBound | client.go:1540 | After any such return a peer with a full budget at the expired reading and again at the return is granted 1024 requests within one window's length. |
| LookupScheduler.AddressLookups.ScanTopicPeers | client.go:1185-1215 | Exactly the unconnected topic peers that are due are started, once each, and the remembered map is the scanned one, within the topic peers. |
| LookupScheduler.AddressLookups.PruneRequested | client.go:1217-1225 | Exactly the entries of topic peers remain. |
| LookupScheduler.AddressLookups.BeginAddrLookup | client.go:1466-1476 | Wins exactly when no lookup of the target is in flight, and marks it. |
| LookupScheduler.AddressLookups.EndAddrLookup | client.go:1478-1482 | Unmarks the target only. |
| LookupScheduler.FirstStart | client.go:1210-1215 | The first lookup of a target starts at the first scan that sees it as an unconnected topic peer. |
| LookupScheduler.StartsAfterAbsence | client.go:1217-1225 | A target that was no topic peer at some scan starts again like a new one. |
| LookupScheduler.StartsOnlyUnconnected | client.go:1193-1196 | Only unconnected topic peers are ever looked up. |
| LookupScheduler.StartsAreSpaced | client.go:77-79 | Two starts for a target that stays a topic peer are at least five minutes apart, whatever the clock does. |
| LookupScheduler.StartsAgainInTime | client.go:1164-1208 | An unconnected topic peer scanned at least every fifteen seconds is started again within less than 5 min 15 s. |
| LookupScheduler.OneLookupPerTarget | client.go:1404-1411 | In every interleaving the lookups running for a target equal its membership of the in-flight set: at most one. |
| DropReporter.Reporter.RecordDrop | allowlist.go:229-252 | The new counter and marker and the line logged, of a call that nobody interleaves with. |
| DropReporter.AloneIsARun | allowlist.go:229-252 | That sequential code is what the concurrent system does when one call takes all its steps in a row. |
| DropReporter.AloneLogsWhenDue | allowlist.go:216-252 | A call that nobody interleaves with logs all drops since the last line if no line was ever logged or the last one is thirty seconds old, and only counts otherwise. |
| DropReporter.LogsWhenDue | allowlist.go:216-252 | The same of the sequential code: the line, and the counter and marker that it leaves behind. |
| DropReporter.LineOrReason | allowlist.go:240-248 | In every interleaving a call goes without a line only if the last one was less than thirty seconds old at its Load, or another call's swap came between its Load and its own. |
| DropReporter.ConservationOverRuns | allowlist.go:210-214 | In every interleaving the counts logged, the counts taken and not yet logged, and the counter (with its 64-bit overflows) add up to the increments done. |
| DropReporter.NoDropIsLost | allowlist.go:210-214 | Once every call has returned, logged counts plus the counter equal the number of calls, with one line per successful swap. |
| DropReporter.RateBound | allowlist.go:170-193 | Stored markers strictly increase, thirty seconds or more per step, and the lines logged are at most one plus the intervals up to the latest winner's clock reading. |
| DropReporter.SpacedOverRuns | allowlist.go:240-248 | Why: every call in flight holds values under which its swap, if it succeeds, keeps the spacing. |
| DropReporter.SwapRaisesMarker | allowlist.go:232-239 | A successful swap raises the marker exactly when the winner's reading was not saturated. |
| DropReporter.FrozenClockLogsOnce | allowlist.go:195-204 | A reporter whose clock is frozen, saturated or not, logs exactly one line however many calls are made. |
| Allowlist.NewPeerAllowlist | allowlist.go:45-78 | Disabled for an empty configuration, the first undecodable ID as the error, otherwise exactly configured, self and granted IDs, with three counts that sum to the size of the set; the empty ID is in it only if configured or the node's own. |
| Allowlist.AllowedExactly | allowlist.go:54-69 | Who is in the set: the configured IDs, the node's own, and whomever an entry that parses ends in. |
| Allowlist.NamesLastOnly | allowlist.go:134-152 | An address names the ID of its last component, and nobody if that is no /p2p/ component, whatever IDs it has elsewhere. |
| Allowlist.PublisherSet.AddStaticPublisherIds | allowlist.go:107-128 | Adds exactly the IDs the static peers name, counts the new ones, and collects the entries that name none, in order. |
| Allowlist.UnnamedExactly | allowlist.go:112-123 | The collected entries are exactly those that do not parse or do not end in an ID, each as often as it occurs, in order. |
| Allowlist.ParsePeerMultiaddrs | client.go:597-637 | The IDs dialed, in order, from the entries, dnsaddr entries through the resolver. |
| Allowlist.DialedExactly | client.go:604-634 | Dialed is exactly whom some entry leads to: the ID that an entry ends in, or that any of the answers to a dnsaddr entry ends in. |
| Allowlist.DialedInOrder | client.go:603-637 | The entries are dialed one after the other, in order. |
| Allowlist.NamedInOrder | client.go:617-624 | So are the answers to a dnsaddr entry. |
| Allowlist.SamePeerPerEntry | allowlist.go:132-134 | Through an entry that names an ID nobody is dialed but the peer it grants, whatever the resolver adds before the ID. |
| Allowlist.DialedAreGranted | allowlist.go:29-39 | Whatever resolution answers, nobody is dialed from the static peers whom they do not grant, exactly when every dnsaddr entry names an ID. |
| Allowlist.AllowlistAgreesWithDialer | allowlist.go:130-153 | The set of IDs dialed from the static peers is the set they grant, whatever resolution answers or fails to, exactly when every dnsaddr entry names an ID that another entry names without resolution; so always without dnsaddr entries. |
| Allowlist.TargetNotRelay | allowlist.go:134-139 | Among any entries, a relayed address grants and dials its target; the relay in front is granted only if some entry ends in it, and dialed only if some entry ends in it or is a dnsaddr entry that names nobody. |

## Left out

- libp2p itself (host, GossipSub, DHT, mDNS, relay, NAT): Join, Subscribe, Next, streams, the peerstore and
  connectedness are steps that may succeed or fail, or parameters.
- CID decoding, multiaddr parsing and DNS resolution are function parameters. The resolver is only taken to keep the
  `/p2p/` suffix of what it resolves, as go-multiaddr-dns documents.
- JSON in general: a message is malformed or an envelope; an array of strings is written and read back in full, but read
  without white space and surrogate pairs, which Go does not write.
- The tables of unicode.IsPrint: a parameter, so the results hold for any notion of printable.
- Allowlist.DialedAreGranted: the only-if half takes some real peer ID that the static peers do not grant, which the
  resolver can answer with; so does that of Allowlist.AllowlistAgreesWithDialer.
- AddressReply.RfcReplyFits: of the multiaddr grammar only the opening is modelled, five bytes of protocol names and
  slashes, since "/dns/" and "/sni/" are the shortest openings before free text.
- Real time: clock readings are numbers, and a budget that runs out is a step that may happen at any time. Close's own
  two-second return is not modelled, because the teardown goes on without it.
- Lifecycle, ReceiveLoop, DropReporter and the concurrent part of LookupScheduler are step systems on values, not
  classes, because several goroutines interleave in them; aliasing between goroutines is not modelled beyond the
  shared state named there. The code that one goroutine runs alone is the classes' methods.
- Lifecycle.NoLostWakeUp: advertised means taken into a pass of the advertise loop; the library may fail to advertise,
  which the client only logs.
- ReceiveLoop.ReceiveMessages: a finite stream and a consumer that keeps up; blocking and cancellation are in the step system.
- DropReporter.RateBound: spacing is of stored markers, not of print times, because a winner may be delayed before it logs.
- PeerIdRequest.ReadPeerIdRequest: a read that returns data together with a failure is taken as data first and the
  failure on the next read; on the 1.0.0 framing the code would discard such data.
- The Topic and Timestamp fields of a message, the connection notifications, log texts and the unused relaying map.
- requestPeerAddresses' choice of neighbours and what it does with the addresses it learns.
- Peer-cache files and their eviction, bootstrap selection, reconnect loops, resource limits, score parameters, key
  handling and the command-line example: plain filters and parameter assembly.
