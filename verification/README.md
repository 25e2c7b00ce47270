# Packet path and allocators of the NAT router firmware

A Dafny model of the parts of the router firmware that carry state, loops and
arithmetic through the packet path, with proofs of what they promise. Code that
works step by step is modelled by methods on arrays, linked nodes and fields;
each method equals a function of the old state, and the main theorems are about
those functions, over every input, every run or every reachable state.

| files | what they model |
|---|---|
| `Words`, `Checksum` | fixed-width words, masks, the one's-complement sum of RFC 1071 and the update of RFC 1624 |
| `DhcpLeases`, `DhcpSafety`, `DhcpRuns`, `DhcpClients`, `DhcpReplies`, `DhcpExclusive`, `DhcpServer` | the DHCP lease allocator: its meaning on values, its safety, its runs, what clients see, what each message is answered, which pools keep an address for one client, and the linked list in place |
| `FlowTable`, `FourVia6`, `FourVia6Packets`, `Translator` | the 4via6 translator: flow table, packet translation, packets part by part, and the in-place buffers |
| `NetifHooks`, `NetifFrames` | TTL override and MSS clamp on frames in place, and on frames put together from their headers |
| `Forwarding`, `ForwardingSafety`, `ForwardingTables`, `PacketFilter`, `Forwarder` | LAN-to-tailnet rules, AP-side port maps, resolver, install callback, packet filter; `Forwarder` holds the arrays |
| `LogCapture` | the live log ring, the ring that survives a reboot, the colour filter |
| `DnsMessage`, `DnsCache` | the DNS wire walks and the direct-mapped response cache |
| `Masks`, `RouteHook`, `RouteRules` | prefix masks, the live route decision and its explanation, and the decision rule by rule |
| `Acl`, `Cidr` | the packet filter lists; networks in text |

Results worth reading first:

- DHCP, the list: for any pool of 1 to 100 addresses a server starts with, every run
  keeps the leases on the list apart and serves every client while an address is
  free **if and only if** the pool and the address after it lie in one block of 256
  addresses (`DhcpRuns.CorrectIffOneBlock`). The code compares raw network-order
  words, so a pool across such a boundary refuses its first client
  (`DhcpRuns.RefusesFirstClient`), and a pool ending in .255 hands out one address
  too many (`DhcpRuns.OneTooMany`); `DhcpRuns.ShortMaskRefuses` and
  `DhcpRuns.ShortMaskOverruns` are servers with such computed pools. A mask of /24 or
  longer always computes a pool that satisfies the condition.
- DHCP, the clients: that no address is in use by two clients (RFC 2131, section 1.6)
  is more than that. A server with such a pool keeps each address for one client
  while its lease lasts, over every run, **if and only if** the pool has at most 16
  addresses or a lease lasts a single tick (`DhcpExclusive.ExclusiveIff`). In a larger
  pool a tick can drop a lease with time left, and its address goes to the next
  newcomer: at 192.168.4.1/24, whose pool has 100 addresses, 192.168.4.2 does
  (`DhcpExclusive.CommonPoolShares`).
- DHCP, the answers: every message with the cookie is answered by its last message type and
  the last address it asks for, over every byte string of options
  (`DhcpReplies.HolderIsAnswered`, `DhcpReplies.NewcomerIsAnswered`).
- MSS clamp: a valid TCP checksum stays valid **if and only if** the value sits
  at an even offset, or the reduction is a multiple of 257
  (`NetifHooks.ClampKeepsChecksumIff`, with `NetifHooks.OddSynBreaks` an input
  that breaks); the comment at main/netif_hooks.c:66-71
  promises it without that condition.
- Log polling: "lost" is raised for a nonzero cursor exactly when a byte after
  it is gone; from cursor 0 it never is, so a first poll can miss the start of
  the stream silently (`LogCapture.ZeroCursorIsSilent`).
- DNS: a question length is reported exactly for a well-formed question, or for
  labels that run into the end of the packet without a root
  (`DnsMessage.QuestionLenIff`, `DnsMessage.CutQueryAccepted`); an owner name is
  skipped correctly exactly when it does not mix labels with a pointer
  (`DnsMessage.NameEndIff`, `DnsMessage.MixedResponseMisread`).
- Route explanation: the page says it runs the exact decision tree of the hook
  (main/lwip_route_hook.c:512-518). It does, except when a rule asks for the
  tunnel and there is none: the hook then returns the null pointer and lwIP goes
  on, while the page says "no route" (`RouteHook.ExplanationMatchesHook`,
  `RouteHook.MissingTunnelDrifts`).
- Web port: saves are checked against the configured port, while the UI listens on
  the port configured when it was started. No event can claim the port it listens
  on **if and only if** the two are the same (`ForwardingSafety.BoundPortIsSafeIff`,
  `ForwardingSafety.BoundPortClash`).
- Clearing the live log is described at main/log_capture.c:369-371 as a clean
  re-sync for pollers; a poller that had read everything before the clear sees no
  "lost" flag, and by `LogCapture.LostIffBytesGone` has lost nothing.

## Model

| member | source | states |
|---|---|---|
| Checksum.FoldIsResidue | main/fourvia6.c:181-185 | folding the carries keeps the value modulo 65535 and never turns a nonzero sum into zero |
| Checksum.Rfc1071Example | main/fourvia6.c:171-185 | the sum is the one of RFC 1071: its worked example, and an odd byte counted as a high byte |
| Checksum.VerifiesIff | main/fourvia6.c:181-185 | a sum verifies exactly when it is a nonzero multiple of 65535 |
| Checksum.SumConcat | main/fourvia6.c:192-210 | the sum over a buffer split at an even offset is the sum of its parts, as the pseudo-header sums assume |
| Checksum.SumPut | main/fourvia6.c:212-213 | storing a 16-bit field changes the sum by exactly the difference of the words |
| Checksum.SealedVerifies | main/fourvia6.c:313-341 | a buffer whose checksum field was zeroed, summed and filled verifies, for any length, odd ones included, and for the UDP form that sends 0xffff for 0 |
| Checksum.UpdatedResidue | main/netif_hooks.c:104-110 | the RFC 1624 update changes the checksum by the difference of the words modulo 65535 |
| Checksum.ChecksumAdd | main/fourvia6.c:171-179 | the loop computes the sum of the words, a trailing odd byte as a high byte, in 32 bits without wrapping |
| Checksum.ChecksumFinish | main/fourvia6.c:181-185 | the folding loop returns the complement of the folded sum |
| Checksum.ChecksumPlain | main/fourvia6.c:187-190 | the two together, for a buffer of less than 64 KiB |
| DhcpLeases.NetWordOrder | components/dhcpserver/dhcpserver.c:360-400 | within one block of 256, comparing raw network-order words is comparing addresses |
| DhcpLeases.InsertPos | components/dhcpserver/dhcpserver.c:360-400 | the insert position is the first lease whose raw word is larger |
| DhcpLeases.Oldest | components/dhcpserver/dhcpserver.c:1528-1565 | the lease dropped from a crowded list is the first with the smallest timer |
| DhcpSafety.DefaultPoolShape | components/dhcpserver/dhcpserver.c:1391-1412 | the computed pool lies between network and broadcast address, leaves out the server and holds at most 100 addresses |
| DhcpSafety.RestartKeepsPool | components/dhcpserver/dhcpserver.c:1372-1389 | starting again at the same address keeps the computed pool |
| DhcpSafety.StartsAtHosts | components/dhcpserver/dhcpserver.c:1442-1480 | a server starts exactly at an address that is neither 0.0.0.0 nor all zeros or all ones under its mask |
| DhcpSafety.DefaultPoolIsLongest | components/dhcpserver/dhcpserver.c:1391-1412 | no stretch of up to 100 hosts beside the server is longer than the computed pool, which begins behind the network or the server address, whichever leaves more |
| DhcpSafety.StartKeepsIff | components/dhcpserver/dhcpserver.c:1364-1412 | a set range survives a start exactly when it lies in the server's network, leaves out the server and has at most 100 addresses; any other is replaced by the computed one |
| DhcpSafety.KeptPoolShape | components/dhcpserver/dhcpserver.c:1372-1389 | a kept range that is not empty lies in the server's network, leaves out the server and holds at most 100 addresses |
| DhcpSafety.BumpedFree | components/dhcpserver/dhcpserver.c:1089-1107 | one pass of the next-fit pointer over the sorted list ends on a free address |
| DhcpSafety.FirstGapSmallest | components/dhcpserver/dhcpserver.c:1108-1117 | the search for the first gap ends on the smallest free address |
| DhcpSafety.ChosenIsFree | components/dhcpserver/dhcpserver.c:1080-1155 | a newcomer's address is free, and lies beyond the pool exactly when every pool address is leased |
| DhcpSafety.WrapsToSmallestFree | components/dhcpserver/dhcpserver.c:1126-1128 | once the next-fit pointer runs off the end, the smallest free pool address is chosen |
| DhcpSafety.HandleKeepsInv | components/dhcpserver/dhcpserver.c:1064-1223 | any message keeps the list strictly sorted, addresses and MACs distinct and every lease inside the pool |
| DhcpRuns.NewcomerIsServed | components/dhcpserver/dhcpserver.c:1149-1189 | a client without a lease is refused exactly when the pool is full; otherwise it is given a free pool address |
| DhcpRuns.TickKeepsSafe | components/dhcpserver/dhcpserver.c:1571-1611 | ageing, expiry and dropping the oldest lease keep the list sorted, distinct and in the pool |
| DhcpRuns.RunKeepsInv | components/dhcpserver/dhcpserver.c:1064-1223 | every run of messages and ticks keeps the invariant, the pool and the lifetime |
| DhcpRuns.RefusesFirstClient | components/dhcpserver/dhcpserver.c:1149-1189 | with a pool across a block boundary the very first DISCOVER is answered with a NAK |
| DhcpRuns.OneTooMany | components/dhcpserver/dhcpserver.c:1149-1172 | with a pool ending in .255 a client beyond the last address is leased an address outside the pool |
| DhcpRuns.CorrectIffOneBlock | components/dhcpserver/dhcpserver.c:1364-1412 | every run is safe and serves every newcomer while an address is free, exactly when the pool and the address after it share one block of 256 |
| DhcpRuns.ShortMaskRefuses | components/dhcpserver/dhcpserver.c:1391-1412 | an input: at 192.168.4.200/16 the first client is refused |
| DhcpRuns.ShortMaskOverruns | components/dhcpserver/dhcpserver.c:1391-1412 | an input: at 192.168.4.155/16 a run of 101 clients leases an address outside the pool |
| DhcpRuns.SlashTwentyFourIsCorrect | components/dhcpserver/dhcpserver.c:1391-1412 | from the default pool of any server with a mask of /24 to /30, every run is correct and leases neither the server nor the network nor the broadcast address |
| DhcpClients.MessageTouchesOnlySender | components/dhcpserver/dhcpserver.c:1064-1223 | a message never changes, adds or drops another client's lease |
| DhcpClients.ReplyNamesSendersLease | components/dhcpserver/dhcpserver.c:1194-1223 | after a reply that is not a refusal the offered address is the sender's one lease; after a refusal, release or decline the sender has none |
| DhcpClients.AddressIsStable | components/dhcpserver/dhcpserver.c:1089-1101 | a client that holds an address is offered that address again |
| DhcpClients.SilentClientExpires | components/dhcpserver/dhcpserver.c:1571-1611 | a client that stays silent for a lease lifetime of ticks has no lease left, whatever the others send |
| DhcpClients.NoTimeIsForever | components/dhcpserver/dhcpserver.c:1592-1594 | a lease granted for no time wraps to 2^32 - 1 ticks instead of expiring |
| DhcpClients.RunKeepsTimed | components/dhcpserver/dhcpserver.c:1571-1611 | in every run a lease's timer is positive and at most the lifetime |
| DhcpClients.TickFreesIff | components/dhcpserver/dhcpserver.c:1528-1611 | a lease with time left loses its address in a tick exactly when more than 16 leases, counted in eight bits, have time left and it is the first with the least |
| DhcpClients.TickKeepsAllIff | components/dhcpserver/dhcpserver.c:1571-1611 | every lease with time left keeps its address through a tick exactly when that guard is not met |
| DhcpClients.LeaseIsKept | components/dhcpserver/dhcpserver.c:1571-1611 | in every run whose ticks never meet that guard a silent client keeps its lease, one tick shorter each tick, for as long as it lasts |
| DhcpClients.LeaseIsExclusive | components/dhcpserver/dhcpserver.c:1064-1223 | meanwhile its address is on no other client's lease and no answer to another client names it |
| DhcpExclusive.ExclusiveIff | components/dhcpserver/dhcpserver.c:1528-1611 | over every run of a started server with such a pool no address is leased to a second client while the first one's lease lasts, exactly when the pool has at most 16 addresses or a lease lasts a single tick |
| DhcpExclusive.LargePoolGivesAway | components/dhcpserver/dhcpserver.c:1606-1611 | in any larger pool one DISCOVER per address, one tick and one newcomer put the first address on a second client's lease |
| DhcpExclusive.CommonPoolShares | components/dhcpserver/dhcpserver.c:1391-1412 | an input: the default pool of 192.168.4.1/24 |
| DhcpClients.WalkDecodes | components/dhcpserver/dhcpserver.c:924-1060 | on any options the walk ends with the last message type and the last address asked for, up to the end marker or a cut-short option |
| DhcpClients.RequestIsJudgedByAddress | components/dhcpserver/dhcpserver.c:924-1060 | a REQUEST naming an address is acknowledged exactly when it names the client's address |
| DhcpReplies.EveryMessageBears | components/dhcpserver/dhcpserver.c:948-967 | the options of every message with the cookie are well-formed options up to an end the walk stops at |
| DhcpReplies.HolderIsAnswered | components/dhcpserver/dhcpserver.c:1014-1051 | for a client that holds an address and any options: DISCOVER is offered it, REQUEST is acknowledged exactly when it asks for it or, asking for none, comes from it, DECLINE and RELEASE take it back, only DECLINE is remembered; an answered lease has its whole lifetime again |
| DhcpReplies.NewcomerIsAnswered | components/dhcpserver/dhcpserver.c:1118-1223 | a client without a lease is given the next free address from the next-fit pointer on, the smallest free one past the end, or the pool's first on an empty list; a REQUEST that does not name it is refused, and the pointer moves behind it |
| DhcpReplies.HolderMovesPointer | components/dhcpserver/dhcpserver.c:1089-1107 | a holder's message moves the next-fit pointer past the leases below its own and no further |
| DhcpReplies.FullPoolRefuses | components/dhcpserver/dhcpserver.c:1149-1152 | with every pool address leased a newcomer is refused, no lease changes and the pointer returns to the pool's start |
| DhcpReplies.LeaseBeyondPoolIsDropped | components/dhcpserver/dhcpserver.c:1174-1189 | in any pool a client whose lease lies beyond the pool in raw words is refused and loses it |
| DhcpReplies.NoCookieIsIgnored | components/dhcpserver/dhcpserver.c:1068 | a message without the DHCP cookie changes nothing and is not answered |
| DhcpServer.Dhcps.SetPool | components/dhcpserver/dhcpserver.c:316-321 | the configured range and its flag are stored, nothing else changes |
| DhcpServer.Dhcps.Start | components/dhcpserver/dhcpserver.c:1364-1480 | starting keeps an acceptable earlier range or computes one, points next-fit at its first address, and refuses network, broadcast and zero addresses |
| DhcpServer.Dhcps.NodeInsertToList | components/dhcpserver/dhcpserver.c:360-400 | the linked list afterwards is the old one with the node at its insert position |
| DhcpServer.Dhcps.NodeRemoveFromList | components/dhcpserver/dhcpserver.c:405-430 | the linked list afterwards is the old one without the node |
| DhcpServer.Dhcps.ParseOptions | components/dhcpserver/dhcpserver.c:924-1060 | the option loop returns the state the option list means |
| DhcpServer.Dhcps.ParseMsg | components/dhcpserver/dhcpserver.c:1064-1223 | the message handler on the linked list computes exactly the new state and result of the value model |
| DhcpServer.Dhcps.Timer | components/dhcpserver/dhcpserver.c:1571-1611 | the timer on the linked list ages, expires and trims exactly as the value model |
| DhcpServer.Dhcps.KillOldestDhcpsPool | components/dhcpserver/dhcpserver.c:1528-1565 | exactly the first lease with the smallest timer is unlinked |
| DhcpServer.Dhcps.Stop | components/dhcpserver/dhcpserver.c:1487-1520 | stopping unlinks every lease and keeps the rest of the state |
| FlowTable.FlowRemember | main/fourvia6.c:223-248 | exactly one slot changes: the flow's own if it has one, else a free one, else slot 0 |
| FlowTable.FlowLookup | main/fourvia6.c:250-272 | the first live flow of the five-tuple is returned and refreshed; flows aged past the queried protocol's timeout before it are dropped |
| FlowTable.RunKeepsTable | main/fourvia6.c:223-272 | after any run no two valid slots hold the same flow, and every valid slot holds a flow some remember recorded |
| FlowTable.HitWasRemembered | main/fourvia6.c:250-272 | every hit returns a client that an earlier remember recorded under that five-tuple |
| FlowTable.LookupMissesIffStale | main/fourvia6.c:257-269 | a lookup finds nothing exactly when every flow of the five-tuple was last used more than 15 minutes (TCP), 2 minutes (UDP) or 30 seconds (ICMP) ago; what it finds is marked used now |
| FlowTable.RememberSparesOthers | main/fourvia6.c:229-246 | another live flow is overwritten only when no slot is free |
| FlowTable.RememberedIsBound | main/fourvia6.c:223-248 | remembering a flow binds its five-tuple to the client when no other client holds it |
| FlowTable.BoundIsFound | main/fourvia6.c:250-272 | a bound five-tuple is looked up to its client, and touched, while its timeout lasts |
| FlowTable.EvictedIffInSlotZero | main/fourvia6.c:229-246 | a remember of another five-tuple ends a flow exactly when it sits in slot 0, nothing is free and the new flow holds no slot |
| FlowTable.SweptIffStaleBeforeHit | main/fourvia6.c:257-269 | a lookup ends a flow exactly when the flow lies before the hit and is stale under the queried protocol's timeout |
| FlowTable.TrafficKeepsBound | main/fourvia6.c:223-272 | a binding lasts through any traffic in which remembers of its five-tuple are its client's, no remember evicts it, and no lookup comes later than its own protocol's timeout after the last use |
| FourVia6.TranslatedVerifies4 | main/fourvia6.c:299-341 | every IPv4 packet produced verifies: header, TCP or UDP over its pseudo-header, ICMP, and its total length |
| FourVia6.V6Of | main/fourvia6.c:378-405 | every IPv6 packet produced verifies over the pseudo-header of RFC 8200, section 8.1, and goes from the site address of the IPv4 source to the client |
| FourVia6.TranslationShows | main/fourvia6.c:307-342 | a translated packet shows the peer, the target and the ports of the packet it came from |
| FourVia6.AnswerHasTuple | main/fourvia6.c:307-342 | an answer to a packet that shows p, as translations of p do, carries the five-tuple remembered for p |
| FourVia6.ReplyReturns | main/fourvia6.c:274-408 | with such traffic in between, an answer whose five-tuple is bound to one client comes back as an IPv6 packet from the original destination to the original source, and the binding lasts on |
| FourVia6.PayloadIsKept | main/fourvia6.c:378-405 | outside the checksum and the ICMP type every payload byte is carried over |
| FourVia6.PassesIffAdvertised | main/fourvia6.c:68-82 | a destination passes the prefix, site and target checks exactly when it lies in the advertised prefix and its embedded address is not loopback, multicast, zero, broadcast or CGNAT |
| FourVia6Packets.SpecialRanges | main/fourvia6.c:215-221 | the targets refused are 127/8, 224/4, 0, the broadcast address and 100.64/10 |
| FourVia6Packets.OursIffToSite | main/fourvia6.c:279-285 | a packet is the translator's exactly when it is enabled and the packet goes to fd7a:115c:a1e0:b1a:0:site/96 |
| FourVia6Packets.InputIsDecidedByParts | main/fourvia6.c:294-325 | for every packet to the site put together from its parts: refused for target, peer, length, hop limit or protocol, swallowed for a payload too short or no echo, and forwarded otherwise |
| FourVia6Packets.InputKeepsPayload | main/fourvia6.c:303-327 | every payload byte of a forwarded packet arrives, the checksum and an ICMP type aside |
| FourVia6Packets.InputFields | main/fourvia6.c:320-338 | the IPv4 header carries the hop limit less one, the given identification, no fragmentation and the mapped protocol; echo types 128 and 129 become 8 and 0 |
| FourVia6Packets.SameTupleIff | main/fourvia6.c:305-342 | two forwarded packets are one flow exactly when protocol, peer, target and ports or echo identifier agree |
| FourVia6Packets.ReturnableByParts | main/fourvia6.c:352-375 | an IPv4 packet put together from its parts is looked up exactly when it is unfragmented and TCP, UDP or an echo of at least eight bytes, under the five-tuple of its addresses and ports |
| FourVia6Packets.OutputFields | main/fourvia6.c:385-401 | the IPv6 header carries the upper traffic-class bits, the mapped next header and the TTL less one, at least 1; echo types 0 and 8 become 129 and 128 |
| FourVia6Packets.OutputIsSentIff | main/fourvia6.c:376-405 | a reply is sent on exactly when its flow is known, it fits a 16-bit length and its TCP checksum field lies inside it |
| FourVia6Packets.UdpOutHasChecksum | main/fourvia6.c:315-317 | a forwarded UDP packet never leaves with checksum 0 |
| FourVia6Packets.UdpBackHasChecksum | main/fourvia6.c:395-400 | nor does a UDP reply |
| Translator.Translator.TranslateInput | main/fourvia6.c:274-347 | the in-place translation of an IPv6 packet equals the packet of the value model and remembers its flow |
| Translator.Translator.TranslateOutput | main/fourvia6.c:349-408 | the in-place translation of an IPv4 packet equals the packet of the value model, after one lookup |
| NetifHooks.ApplyStaTtlOverride | main/netif_hooks.c:196-220 | the frame afterwards differs in TTL and header checksum only, as the specification function says |
| NetifHooks.OverrideKeepsHeader | main/netif_hooks.c:196-220 | a valid IPv4 header checksum stays valid under the TTL override, for every header |
| NetifFrames.OverrideSetsTtl | main/netif_hooks.c:196-220 | every IPv4 frame leaves with the overriding TTL and no other change but the header checksum |
| NetifFrames.OverrideLeavesOthers | main/netif_hooks.c:196-206 | an override of 0, another EtherType or version and a short frame leave the frame alone |
| NetifHooks.Rfc1624 | main/netif_hooks.c:104-110 | the update loop on raw words computes the RFC 1624 formula |
| NetifHooks.ClampTcpMss | main/netif_hooks.c:72-116 | the frame afterwards is the clamped frame of the specification |
| NetifHooks.FindMss | main/netif_hooks.c:88-115 | the option walk ends in bounds and finds what the specification walk finds |
| NetifHooks.EveryListDecodes | main/netif_hooks.c:92-98 | any option bytes are well-formed options up to an end: nothing, end-of-list, or a malformed option |
| NetifHooks.WalkFindsFirstMss | main/netif_hooks.c:88-115 | on every option list the walk finds the first well-formed MSS option before the end, or nothing |
| NetifHooks.ClampTouches | main/netif_hooks.c:99-110 | only the two value bytes and the two checksum bytes can change |
| NetifHooks.ClampBounds | main/netif_hooks.c:99-110 | afterwards the value is at or below the cap, and unchanged if it already was |
| NetifHooks.ClampIsIdempotent | main/netif_hooks.c:72-116 | clamping twice is clamping once |
| NetifFrames.SynIsClamped | main/netif_hooks.c:72-116 | a TCP segment with the SYN bit, whatever its other flags, header lengths and options, leaves with its first four-byte MSS value lowered to the cap if it was above; without the bit, or at most the cap, nothing changes |
| NetifFrames.OthersAreLeft | main/netif_hooks.c:92-115 | a segment without such an option is left alone |
| NetifFrames.NonTcpIsLeft | main/netif_hooks.c:72-84 | so is anything but TCP over IPv4 |
| NetifHooks.ClampKeepsChecksumIff | main/netif_hooks.c:72-116 | a valid TCP checksum stays valid exactly when nothing changes, the value is at an even offset, or the reduction is a multiple of 257 |
| NetifHooks.OddSynBreaks | main/netif_hooks.c:99-110 | an input: a valid SYN with NOP then MSS 1460 whose checksum is invalid after a clamp to 1400 |
| ForwardingSafety.BootIsSound | main/tailnet_forward.c:76-83 | the state with nothing saved and nothing installed satisfies the invariant |
| ForwardingSafety.SetAllKeepsInv | main/tailnet_forward.c:88-105 | a saved rule table, accepted or not, keeps ports apart and marks nothing installed that is not mapped |
| ForwardingSafety.PassKeepsInv | main/tailnet_forward.c:54-75 | a resolver pass keeps a rule installed only at the address it was installed with |
| ForwardingSafety.PortmapSetAllKeepsInv | main/portmap.c:85-123 | saving AP-side maps keeps ports apart from rules and the web port |
| ForwardingSafety.WebPortKeepsInv | main/web_ui.c:3516-3534 | a changed web port stays apart from both tables |
| ForwardingSafety.InstallKeepsInv | main/portmap.c:125-168 | the callback leaves every rule it marks mapped in lwIP to its resolved address and port, and remembers exactly the mappings lwIP holds |
| ForwardingSafety.InstallIsComplete | main/portmap.c:146-165 | with room in lwIP's table the callback installs exactly the enabled rules whose destination is resolved |
| ForwardingSafety.InstallMapsEntries | main/portmap.c:141-155 | the callback maps every AP-side entry and leaves nothing of deleted rules or entries behind |
| ForwardingSafety.InstallLeavesNoOrphans | main/portmap.c:141-165 | directly after an install with an uplink every mapping in lwIP is claimed by an enabled rule or an AP-side map |
| ForwardingSafety.PortsNeverClash | main/tailnet_forward.c:86-106 | in every reachable state enabled rules, AP-side maps and the configured web port never claim the same protocol and port |
| ForwardingSafety.BoundPortStays | main/web_ui.c:5091 | no event moves the port the web UI listens on before the next start |
| ForwardingSafety.BoundPortIsSafeIff | main/tailnet_forward.c:96 | from a sound state whose bound web port nobody claims, no event can claim it, exactly when the configured port is the bound one |
| ForwardingSafety.BoundPortClash | main/web_ui.c:3516-3534 | an input where it is claimed: after configuring 8080 on a fresh device, a saved TCP rule takes port 80 while the UI still listens there |
| ForwardingSafety.InstalledIsMapped | main/tailnet_forward.c:54-117 | in every reachable state a rule marked installed has its lwIP mapping, to its currently resolved tailnet address and port |
| ForwardingTables.PassResolves | main/tailnet_forward.c:54-75 | a pass resolves exactly the enabled rules whose destination is in 100.64/10 while the tailnet is up, keeps the mark only at an unchanged address, and leaves the counters alone |
| ForwardingTables.TableIsSaved | main/tailnet_forward.c:88-105 | a table of at most eight sensible rules, none of which clashes with an earlier one, an AP-side map or the web port, is saved as it is |
| ForwardingTables.TableIsRefused | main/tailnet_forward.c:88-97 | any other is refused without effect, with the status of its first bad rule |
| ForwardingTables.RequestIsStored | main/portmap.c:104-109 | an accepted AP-side request is stored in full, in order and closed up |
| ForwardingTables.LongRequestIsClipped | main/portmap.c:89 | of a longer request only the first sixteen entries count |
| ForwardingTables.RequestAcceptedIff | main/portmap.c:91-102 | a request is accepted exactly when no filled entry asks for a port a rule, the web UI or an earlier entry has |
| ForwardingTables.WebPortTakenIff | main/web_ui.c:3516-3534 | the web port changes exactly to a port above 0 that neither table claims for TCP, and nothing else changes |
| ForwardingTables.InstallBinds | main/portmap.c:141-165 | after an install every mapping is bound to the uplink address, and no more are held than lwIP's table takes |
| PacketFilter.DatagramIsRead | main/tailnet_forward.c:111-116 | the fields of any first fragment of a TCP or UDP datagram are read correctly, IP options included |
| PacketFilter.OthersAreNotRead | main/tailnet_forward.c:111-116 | later fragments, other protocols, versions and EtherTypes, and datagrams without ports are not judged |
| PacketFilter.AdmitsIff | main/tailnet_forward.c:117 | a packet passes exactly when no enabled rule claims its port or the rule that does is installed and allows its source |
| PacketFilter.ClaimedPassesIff | main/tailnet_forward.c:117 | a packet to an enabled rule's port passes exactly when the rule is installed and the source and the rule's network have the same quotient by 2^(32 - prefix): /0 admits all, /32 one address; the one counter that moves is accepted or blocked accordingly |
| PacketFilter.UnclaimedPasses | main/tailnet_forward.c:117 | a packet to a port no enabled rule claims passes and moves no counter |
| PacketFilter.LeftoverPassesIff | main/tailnet_forward.c:117 | a packet to a port lwIP maps passes without a rule or an AP-side map owning it exactly when the mapping is claimed by neither table |
| PacketFilter.DeletedRuleLeavesMapping | main/tailnet_forward.c:98-117 | an input: a rule saved, resolved, installed and deleted leaves such a mapping, and any source passes |
| PacketFilter.PassedPacketIsMapped | main/tailnet_forward.c:117 | after any run a packet to an enabled rule's port passes only if its source lies in the rule's CIDR and lwIP maps the port to the rule's resolved address |
| Forwarder.Forwarder.SetAll | main/tailnet_forward.c:88-105 | the arrays afterwards are the saved and resolved table, or unchanged with the first failing check's status |
| Forwarder.Forwarder.SetEnabled | main/tailnet_forward.c:106 | toggling is saving the table with one flag changed |
| Forwarder.Forwarder.ResolveAll | main/tailnet_forward.c:66-75 | one manager pass, and whether any resolved address changed |
| Forwarder.Forwarder.PortmapSetAll | main/portmap.c:85-123 | the AP-side array afterwards is the compacted request, or unchanged |
| Forwarder.Forwarder.ChangeWebPort | main/web_ui.c:3516-3534 | the port is taken exactly when neither table claims it |
| Forwarder.Forwarder.InstallCallback | main/portmap.c:125-168 | the arrays and lwIP's table afterwards are those of the step function |
| Forwarder.Forwarder.AllowUplinkPacket | main/tailnet_forward.c:117 | the verdict and the one counter that changes |
| Forwarder.Forwarder.AllowNonUplinkPacket | main/tailnet_forward.c:118 | away from the uplink a readable packet passes exactly when no enabled rule claims its port |
| LogCapture.OldestIs | main/log_capture.c:67-80 | over every run from an empty log the oldest byte kept is the first after the last clear, or the first not yet overwritten |
| LogCapture.LostIffBytesGone | main/web_ui.c:2804-2824 | over every run "lost" is raised exactly for a nonzero cursor some byte after which was followed by a clear or by a whole ring of newer bytes |
| LogCapture.StreamIsLines | main/log_capture.c:65-79 | when no line is longer than the ring the stream is exactly the appended lines |
| LogCapture.LongLineIsCut | main/log_capture.c:65-79 | of a line longer than the ring only the last bytes that fit enter the stream |
| LogCapture.PollDelivers | main/log_capture.c:379-434 | a poll into a full-size buffer delivers everything from the cursor, or from the oldest byte kept |
| LogCapture.ReadIsNewest | main/log_capture.c:395-419 | a read into a smaller buffer delivers the newest bytes that fit |
| LogCapture.ZeroCursorIsSilent | main/web_ui.c:2804-2824 | cursor 0 is never told lost, and receives the whole stream exactly when the ring still holds it |
| LogCapture.PollerHearsAll | main/web_ui.c:2804-2824 | over any interleaving of appends, clears and polls, a poller never told lost has heard exactly the stream from its first cursor |
| LogCapture.FreshPollerHearsSuffix | main/web_ui.c:2804-2824 | a poller that starts at 0 and is never told lost has heard an unbroken stretch up to its cursor |
| LogCapture.ChunkIsStretch | main/log_capture.c:421-428 | each chunk of the wrapped copy is the next stretch of the stream |
| LogCapture.LiveLog.BufferAppend | main/log_capture.c:61-80 | the ring afterwards holds the newest bytes of the stream with the appended bytes |
| LogCapture.LiveLog.Read | main/log_capture.c:332-361 | the newest bytes held that fit beside the terminator |
| LogCapture.LiveLog.ReadSince | main/log_capture.c:379-434 | the bytes of the stream from an absolute offset on, and the new offset |
| LogCapture.LiveLog.Clear | main/log_capture.c:363-373 | the ring is empty and the absolute offset unchanged |
| LogCapture.LiveLog.LogRaw | main/web_ui.c:2804-2824 | one poll answers with the chunk, cursor and flag of the value model |
| LogCapture.PrecrashRing.BufferAppend | main/log_capture.c:81-98 | the retained ring holds the newest 4096 bytes written since the last init |
| LogCapture.PrecrashRing.AppendPanic | main/log_capture.c:104-119 | panic bytes continue the same stream |
| LogCapture.PrecrashRing.Init | main/log_capture.c:268-298 | the snapshot is the newest 4096 bytes written since the previous init, none with a wrong magic or nothing written, and the ring starts empty again |
| LogCapture.SnapshotIsNewestSinceBoot | main/log_capture.c:81-119 | over any number of soft reboots each snapshot is the newest 4096 bytes logged or printed by a panic since the reboot before |
| LogCapture.StripAnsiInplace | main/log_capture.c:200-216 | the buffer afterwards starts with the stripped text, whose length is returned |
| LogCapture.StripKeepsText | main/log_capture.c:189-216 | stripping a coloured line leaves exactly its text |
| DnsMessage.DnsQuestionLen | components/dns_relay/dns_relay.c:167-180 | the label loop computes the specification's question length |
| DnsMessage.QuestionLenIff | components/dns_relay/dns_relay.c:167-180 | the length is n exactly for a well-formed question of 5 to 256 bytes, whatever follows, or for labels that end with the packet |
| DnsMessage.CutQueryAccepted | components/dns_relay/dns_relay.c:171-178 | an input: a query ending in the label "aaaa" is taken for a question of five bytes |
| DnsMessage.NamesPrefixFree | components/dns_relay/dns_relay.c:171-176 | an encoded name determines its labels and where it ends |
| DnsMessage.QuestionsPrefixFree | components/dns_relay/dns_relay.c:164-180 | no well-formed question is a proper prefix of another |
| DnsMessage.SameKeyIffSameQuestion | components/dns_relay/dns_relay.c:233-243 | two packets share a cache key exactly when they ask the same name, type and class |
| DnsMessage.DnsRespTtl | components/dns_relay/dns_relay.c:195-222 | the record loop stays in bounds and computes the specification's lifetime |
| DnsMessage.TtlRange | components/dns_relay/dns_relay.c:195-222 | a response is refused exactly for its RCODE; any other lifetime is 10 to 3600 seconds |
| DnsMessage.NoAnswersIsNegative | components/dns_relay/dns_relay.c:199-200 | a response without answers lives fifteen seconds |
| DnsMessage.UnsetTtlsAreNegative | components/dns_relay/dns_relay.c:202-218 | so does one whose answers all carry the largest TTL |
| DnsMessage.NameEndIff | components/dns_relay/dns_relay.c:205-210 | an owner name is skipped to its true end exactly when it is a lone pointer or plain labels |
| DnsMessage.ReservedIsLength | components/dns_relay/dns_relay.c:205-210 | a reserved label length is skipped like any other |
| DnsMessage.MixedResponseMisread | components/dns_relay/dns_relay.c:205-214 | an input: an answer owned by "a" and a pointer, with a TTL of 300, is given the negative lifetime |
| DnsMessage.TtlIsClampedLeast | components/dns_relay/dns_relay.c:201-221 | on such answers the lifetime is the least TTL, clamped |
| DnsCache.Fnv1a | components/dns_relay/dns_relay.c:224-229 | the hash loop computes the recursive hash |
| DnsCache.KnownHashes | components/dns_relay/dns_relay.c:224-236 | the hash has the published FNV-1a values for nothing and for "a", and selects a slot by its low byte |
| DnsCache.SlotHoldsLatest | components/dns_relay/dns_relay.c:252-271 | a question's slot holds its latest store unless a colliding question was stored after it |
| DnsCache.HitIsPlain | components/dns_relay/dns_relay.c:233-250 | every hit is the answer a plain map from questions to latest, unexpired responses would give |
| DnsCache.MissIffPushedOut | components/dns_relay/dns_relay.c:233-271 | the cache misses what the plain map would answer exactly when a colliding question was stored since |
| DnsCache.ServedForTtl | components/dns_relay/dns_relay.c:238-264 | a stored response answers its question for ttl seconds and no longer, while nothing else is stored in its slot |
| DnsCache.Cache.CachePut | components/dns_relay/dns_relay.c:252-271 | a storable response is appended to the history, others are ignored, and the counters follow |
| DnsCache.Cache.CacheGet | components/dns_relay/dns_relay.c:233-250 | a hit is the stored response with only its two id bytes replaced by the query's |
| RouteHook.MasksAreRanges | main/lwip_route_hook.c:46-53 | the masks select 100.64.0.0/10 and the private ranges of RFC 1918 |
| Masks.PrefixIsLeadingBits | main/lwip_route_hook.c:362-368 | under the mask of a prefix length two addresses are the same exactly when they differ only below their first len bits |
| RouteHook.FindWgNetif | main/lwip_route_hook.c:55-65 | the first interface with a tailnet address |
| RouteHook.FindStaNetif | main/lwip_route_hook.c:78-87 | the first station interface that is up with its link |
| RouteHook.LanScan | main/lwip_route_hook.c:389-425 | the first attached prefix, and failing that the first usable uplink outside the tailnet range |
| RouteHook.Hook | main/lwip_route_hook.c:322-510 | the hook's early returns compute its decision table |
| RouteHook.RouteExplain | main/lwip_route_hook.c:541-738 | the explanation's early returns compute its decision table |
| RouteHook.ExplanationMatchesHook | main/lwip_route_hook.c:512-738 | whenever the hook steers a packet the explanation credits one of its rules and names the same interface; it credits a rule for a packet lwIP goes on to route by itself exactly when the rule asks for a tunnel and there is none |
| RouteHook.MissingTunnelDrifts | main/lwip_route_hook.c:566-573 | an input where the two differ: a lone station and 100.64.0.1 |
| RouteHook.ForwardedPublicIffNotAttached | main/lwip_route_hook.c:443-502 | with an exit node and the tunnel up, a forwarded packet to a public address enters the tunnel, except exactly when lan-bypass finds it on an attached prefix that neither the tailnet nor an accepted route claims |
| RouteHook.OwnTrafficAvoidsTunnel | main/lwip_route_hook.c:443-485 | the device's own traffic outside the tailnet never enters the tunnel unless the uplink itself has a tailnet address |
| RouteRules.TunnelRule | main/lwip_route_hook.c:329-377 | what goes to 100.64/10, and what others than the device send to an accepted route, is steered to the first tailnet interface or to none |
| RouteRules.NoExitNodeRule | main/lwip_route_hook.c:379-510 | without an exit node everything else is left to lwIP |
| RouteRules.BypassRule | main/lwip_route_hook.c:390-441 | with an exit node and lan-bypass it leaves on the first attached prefix, and a private destination failing that on the first station with an address; otherwise private destinations are left to lwIP |
| RouteRules.PublicRule | main/lwip_route_hook.c:456-510 | what is left is public: own packets leave on the first usable station, forwarded ones in a tunnel that is up |
| RouteRules.FallbackRule | main/lwip_route_hook.c:697-738 | once the rules are exhausted the page names the first usable interface on whose prefix the destination is, else the default one, as the exit node's exactly when that is the tunnel |
| Acl.FrameIsRead | components/acl/acl.c:239-295 | the header and ports of an IPv4 frame are read correctly, options included |
| Acl.OthersAreNotRead | components/acl/acl.c:246-280 | ARP, IPv6 and length-typed frames, short packets and other versions are matched against nothing |
| Acl.BarePacketIsRead | components/acl/acl.c:246-284 | a packet without a link header is matched on its addresses unless its source looks like an EtherType |
| Acl.FirstAgreeingDecides | components/acl/acl.c:304-366 | the first rule whose protocol, masked addresses and ports agree allows exactly when bit 0 of its flag is set and denies otherwise; it is hit once and only that counter moves |
| Acl.NoneAgreesIsNoMatch | components/acl/acl.c:364-366 | when none agrees the verdict is no match and only that counter moves |
| Acl.AddDecides | components/acl/acl.c:152-194 | an added rule decides only packets no earlier rule matches, and matches the network it was given under its masks |
| Acl.DeleteDecides | components/acl/acl.c:196-225 | deleting a rule leaves alone every packet it was not the first to match |
| Acl.ShadowedIsDead | components/acl/acl.c:304-362 | a rule behind one that matches all its packets never decides anything |
| Acl.CountersAddUp | components/acl/acl.c:342-366 | over every run allowed, denied and nomatch add up to the IPv4 packets matched since they were cleared, modulo a counter's width |
| Acl.NeverOverfull | components/acl/acl.c:163-176 | no run fills a list beyond its 16 slots |
| Acl.EditsAre | components/acl/acl.c:136-194 | a rule is added while there are fewer than sixteen; clearing the counters zeroes every hit count and keeps the rules |
| Acl.AclList.Add | components/acl/acl.c:152-194 | the pre-masked rule is appended, or the full list unchanged |
| Acl.AclList.Delete | components/acl/acl.c:196-225 | exactly one index is removed, the rest keeps its order and the slots stay compact |
| Acl.AclList.Clear | components/acl/acl.c:124-134 | the list is empty and the counters unchanged |
| Acl.AclList.ClearStats | components/acl/acl.c:136-150 | counters and hits are zero and the rules unchanged |
| Acl.AclList.GetCount | components/acl/acl.c:107-122 | the number of rules in the list |
| Acl.AclList.CheckPacket | components/acl/acl.c:233-399 | the first matching rule decides; one hit and one counter change |
| Cidr.CountBits | components/acl/acl.c:448-458 | the loop counts the one bits |
| Cidr.MaskHasBits | components/acl/acl.c:448-458 | the mask of a prefix length has that many one bits |
| Cidr.MaskLeavesPrefix | components/acl/acl.c:523-533 | bitwise and with the mask of a prefix length clears exactly the bits behind the prefix |
| Cidr.AclRoundTrip | components/acl/acl.c:460-536 | parsing what was printed gives the network back, for every masked address and prefix length, "any" and bare addresses included |
| Cidr.AnyInAnyCase | components/acl/acl.c:492-497 | "any" is read in any mix of cases |
| Cidr.StrtolReads | components/acl/acl.c:509 | a prefix length is read behind white space, with its sign, up to the first character that is no digit |
| Cidr.ParsedIsMasked | components/acl/acl.c:486-536 | whatever text is accepted, the mask is a prefix mask and the address has no bit outside it |
| Cidr.AcceptedTextIsStable | components/acl/acl.c:460-536 | printing any accepted text's network and parsing it again changes nothing |
| Cidr.ForwardRoundTrip | main/tailnet_forward.c:40-52 | parsing what was printed gives the masked network and prefix length back, hence the network itself exactly when it is masked |
| Cidr.SuffixesDiffer | main/tailnet_forward.c:40-49 | a negative length is refused by both parsers; text behind the length only by the forwarding rules |
| Cidr.QuadReadsDotted | main/tailnet_forward.c:50-52 | the printed dotted quad determines the address |

## Left out

- DHCP reservations: the lookup callback is taken to return 0; with one, components/dhcpserver/dhcpserver.c:1130-1147 can give out an address that is leased.
- DHCP reply contents, option encoding, host names, sockets, and the start and stop gating around them.
- Memory: every allocation succeeds; a list node and its lease are one object, freed implicitly.
- The unit of lease time: the lifetime is a parameter, counted in timer ticks.
- The 4via6 configuration text: its scanner, and the printed form of the prefix; addresses and prefix lengths are values.
- FourVia6.OutputVerdict: a reply whose TCP payload is shorter than 18 bytes, or that would not fit a 16-bit length, is a separate outcome, since the source writes its checksum outside the buffer there.
- FlowTable.FlowLookup: ages every slot with the queried protocol's timeout, as the source does, so per-flow lifetimes are not claimed; a full table always gives up slot 0, so oldest-first is not claimed.
- Traffic class and flow label: copied only in part by the source, and not claimed to survive.
- ICMP fragmentation-needed replies, packet counters and logging.
- Log formatting and the byte-count limits of absolute offsets: the sequence number is unbounded.
- PrecrashRing before its first init: its contents are arbitrary, and with a forged magic nothing is claimed of the snapshot.
- The pairing of DNS replies with queries by the relay's workers, and the sockets; claims are about the parsers, put and get.
- DnsCache.Cache: time is a parameter in microseconds, and the mutex makes each put and get one step.
- RouteHook.Hook: verbose tracing, the hook it wraps, and lwIP's own routing after a fall-through or a null pointer; the latter appears only as the explanation describes it.
- RouteHook.RouteExplain: peer names and the printed sentence; the reason is an enumerated value.
- Forwarding steps are atomic and persistence succeeds; tables loaded at boot are assumed to satisfy the invariant; error texts and rule names are left out.
- Forwarding.Rule: what `ip4addr_aton` reads from a destination is a field of the rule, and name resolution a parameter of each pass; both live outside the repository.
- lwIP's port-map table is a finite map with a capacity; an add overwrites an existing key or needs a free place.
- Forwarding toward the tailnet after the filter (routed target and response lookups, totals): easy members over the same state.
- Acl: the four lists are four independent instances; the answer for a list number out of range, the deny log and its rate limit are left out. A packet without a link header whose source address looks like an EtherType is taken for a frame, as in the source.
- Cidr: `ip4addr_aton` is any reader that reads back dotted quads; short, octal and hexadecimal forms are its business.
- Wi-Fi, HTTP, MQTT, notifications, updates, consoles, SD card files, passwords and tokens.
