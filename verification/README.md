# A verified model of the simple router

The C router in `router/` forwards IP frames between the interfaces of a virtual
topology and learns hardware addresses by ARP. The Python server in
`pox_module/cs144/` describes that topology to it and exchanges a few other
messages with it. This project models both sides of what they agree on and proves
what every run of the router keeps.

## How it is built

The model has two layers.

* **A state machine on values** (`RouterModel`): the ARP table, the queue of pending
  requests, the frames put aside so far, and a log of every call of
  `sr_send_packet`, each with its cause. `Decide` maps an event to an action, `Apply`
  carries it out, `Step` is the two together and `Run` is a list of events. An event
  is a received frame or one pass of the timeout thread, with its clock reading.
* **The heap** (`ArpCache`, `Interfaces`, `RoutingTable`, `Buffers`, `Router`): linked
  nodes, the fixed table and frame buffers, changed in place by methods that walk and
  relink them as the C functions do. `Router.HandlePacket` and `Router.Timeout` are
  proved to take exactly the steps of the machine, and `Session.Serve`, which strings
  any events together on one heap, to end where the machine's run ends. So every
  theorem about runs is about the heap.

The theorems about runs are in `Conservation` (each frame put aside is waiting,
released or answered, exactly once), `Attribution` (never in another frame's name),
`Order` (exactly the cache misses are put aside; a reply releases them latest first),
`Resolver` (the invariant of the queue and the table), `Progress` (five broadcasts at
most, six sweeps settle everything), `Fates` (which end a frame meets, and whether it
reaches the wire), `InTime` (when a reply comes soon enough),
`Freshness` (table entries come from replies and are not stale), `Addressing` (so do the
addresses of what is sent on), `Returns` (where a host-unreachable message goes),
`Forwarding` (TTL safety over chains of routers, and the source-address guard) and
`Answers` (which frames are answered, with what, and to whom). `Padding` says what
follows when a frame is longer than its datagram, `PacketLists` ties conservation back
to the linked lists, and `Scenarios` gives reachable runs for what the documentation
does not say.

Beside the machine stand `Checksum` and `IpHeader` (RFC 1071 and RFC 1141, in
arithmetic; `Checksum.ShiftsAreArithmetic` is the bridge to the shifts and masks),
`Sha1Standard` and `Sha1Context` (FIPS PUB 180-1 and the streaming implementation),
`Network` and `WordBits` (longest-prefix match on raw masks in either byte order),
`HardwareInfo` (the interface description packed in Python and folded into a list in
C), and `Messages` and `Templates` (text, authentication replies, topology requests).

## Assumptions

* **Atomic steps.** Each event is one step at one clock reading. The code does not
  quite guarantee this: `handle_arpreq` is called outside the lock at
  `router/sr_router.c:234`, and `time` is read again for each request.
* **Clock.** Where a theorem needs it, it says so: readings after the epoch
  (`AfterEpoch`, so that a request whose `sent` is 0 is due), never running back, and
  sweeps at strictly increasing seconds (`Clocked`).
* **Frame length.** An ARP frame is assumed to hold an ARP header, which the code never
  checks. An IP frame may have any length, but a few acts read 42 octets of it: the ICMP
  errors quote 28 octets after the Ethernet header (`router/sr_router.c:418`,
  `router/sr_arpcache.c:151`), at once or for a frame put aside. When a shorter frame
  comes to such an act, or is put aside where it may be quoted later, `Decide` gives
  `Overreads`, and what the code then does is not modelled. With frames of 42 octets or
  more, and on an Ethernet none is shorter, that never happens
  (`Session.LongFramesAreRead`).
* **Headers without options.** The code takes the IP header to be 20 octets
  (`router/sr_router.c:124`), and so does the model.
* **Verified table.** `Router` is only built over a routing table that passed
  `sr_verify_routing_table`; the session stops otherwise (`router/sr_vns_comm.c:438-441`).
* **Uninitialised memory.** The address fields of a fresh interface node hold arbitrary
  values (`Junk`), and the results hold whatever they are.

## Where the code differs from its own documentation, or from a standard

* The sweep at `router/sr_arpcache.c:23-26` reads `req->next` after `handle_arpreq` may have
  freed the request, although `router/sr_arpcache.h:61-63` says to save it first. The model
  saves it; `SweepRequests` and `Timeout` return a ghost flag and prove that the order in
  the code reads a freed node exactly when some request is given up in that sweep.
  `Scenarios.SilenceGivesUp` and `UnreachableGoesElsewhere` reach such a sweep.
* A host-unreachable message leaves by `pkt->iface`, the interface the frame was to be
  forwarded on (`router/sr_arpcache.c:42`, `router/sr_router.c:233`), with that interface's
  address, and to the Ethernet address the frame came from; `README.md:43` wants it to go
  back to the sender. The model follows the code. It goes back the way the frame came
  exactly when the route of the frame's destination leads there
  (`Returns.UnreachableReturnsExactly`), and `Scenarios.UnreachableGoesElsewhere` is a run
  in which it does not.
* `handle_arpreq` waits for one second or more (`router/sr_arpcache.c:37`);
  `router/sr_arpcache.h:27` says more than one. The two differ exactly at one second
  (`RouterModel.DueDiffersExactly`), and `Scenarios.SilenceBuilds` sends again then.
* A reply sends each waiting frame with the address of the interface the reply came in on,
  though by the frame's own interface (`router/sr_router.c:288-292`). When those are two
  interfaces with different addresses, `sr_send_packet` refuses the frame
  (`router/sr_vns_comm.c:505-508`), and the request and the frame are freed all the same:
  the frame is lost. `Scenarios.ReleaseIsRefused` is such a run,
  `Addressing.ReleasedReachesExactly` and `Fates.FateWithinSixSweeps` say exactly when a
  frame reaches the wire.
* A valid header whose checksum field is 0x0000 is dropped
  (`IpHeader.ZeroChecksumIsDropped`); RFC 1071 accepts it.
* A route with mask 0.0.0.0 is never chosen (`Network.DefaultRouteIsIgnored`), although
  `router/INSTRUCTIONS:58` shows a default route.
* A TTL of 0 on arrival wraps to 255 and is forwarded (`Forwarding.ArrivingTtl`,
  `Scenarios.ZeroTtlIsForwarded`).
* The echo checksum, the length of an echo reply and its data cover the frame to its end
  (`router/sr_router.c:146`, `router/sr_router.c:387`), so octets that pad a short frame
  count as ICMP data. The reply is the one the datagram calls for if and only if there are
  none (`Padding.ReplyIsRightExactly`, `Padding.ReplyLengthExactly`), and padding that adds
  no multiple of 65535 to the sum makes the router drop a good request
  (`Padding.PaddingDecides`). `Scenarios.PaddedEcho` has a frame for each.
* The table may hold several valid entries for one address, and a lookup returns the one
  in the highest slot. `Resolver.LookupAfterInsert` says exactly when a new mapping is
  seen, and `Scenarios.NewestIsHidden` is a run in which it is not.
* An error message quotes the buffer as it then stands. Port unreachable and time exceeded
  quote a header with checksum 0, the latter with TTL 0 as well; net unreachable and host
  unreachable quote the aged header with its new checksum (`Answers.TransitOrError`,
  `Frames.Unreachable3IsWellAddressed`). None quotes the datagram as it came
  (`Answers.QuoteIsNeverOriginal`).
* `get_banners` and `get_banners_and_close` promise the minimum number of messages and send
  one too many at the positive multiples of 255 (`Messages.MinimumExactly`).
* `length()` is four short of `pack()` for `VNSAuthReply` and thirty over it for
  `VNSOpenTemplate`; `Messages.DeclaredReplyIsCut` and `Templates.DeclaredLengthReadsSixMore`
  say what a receiver that trusted it would read.

## Model

| member | source | states |
|---|---|---|
| Conservation.RunConserves | router/sr_arpcache.c:33-56 | In every state a run from start-up reaches, each frame ever put aside is waiting once, or was released once by an ARP reply, or was answered once as unreachable, and the other two counts are 0; no other number leaves a trace anywhere |
| Conservation.RunKeepsAccount | router/sr_router.c:232-234 | Every event, in any state, keeps the account of each deferred frame: waiting plus released plus answered is 1 |
| Conservation.SweepCount | router/sr_arpcache.c:21-56 | A sweep neither loses nor duplicates a waiting frame: those left in the queue and those answered add up to those that waited |
| Attribution.RunIsAttributed | router/sr_router.c:280-297 | In every reachable state a frame waits only under its own next hop, a release answers a reply for that hop and keeps everything after the two Ethernet addresses, and an unreachable message is ICMP 3/1 made from that very frame; both leave by the frame's own interface. A broadcast asks for the next hop of the frame that opened its request, from the interface it leaves by, and some frame put aside for that hop leaves by it too |
| Addressing.RunIsAddressed | router/sr_router.c:212-216 | Over every run, a forwarded frame goes to a hardware address that some ARP reply of the run gave for the next hop of its route, from the interface of that route and with its address; a released one goes to the address a reply gave for the next hop it waited for, with the address of the interface that reply came in on |
| Addressing.ReleasedReachesExactly | router/sr_vns_comm.c:486-516 | Over every run with a verified table, each released frame answers a reply of the run that gave the hardware address it carries, and passes the guard if and only if the interface that reply came in on has the address of the frame's own |
| Addressing.LookupIsTold | router/sr_arpcache.c:164-186 | What a lookup finds, some ARP reply of the run said of that address |
| Order.RunDefersMisses | router/sr_router.c:206-235 | Over every run the frames put aside are exactly the frames in transit, long enough to be quoted, whose next hop was not in the table, aged, in order of arrival |
| Order.RunIsOrdered | router/sr_arpcache.c:214-224 | In every reachable state each list of waiting frames stands in strictly decreasing order of arrival |
| Order.ReplyReversesArrival | router/sr_router.c:280-299 | In every reachable state a reply sends all that waits for its address and nothing else, the latest arrival first |
| PacketLists.ListsAreDisjoint | router/sr_arpcache.c:214-224 | While each frame is accounted for once, as in every reachable state, no node is on the lists of two requests |
| Resolver.RunKeepsInvariant | router/sr_arpcache.c:194-271 | In every reachable state pending requests have pairwise distinct addresses, each has waiting frames and 1 to 5 sends, and no address is both pending and in the table, a full table included |
| Resolver.LookupIsLastValid | router/sr_arpcache.c:164-186 | A lookup finds something if and only if a valid entry for the address exists, and then returns the one in the highest slot |
| Resolver.LookupAfterInsert | router/sr_arpcache.c:254-266 | For every table, full or not: after a mapping was recorded every other address is looked up as before, and its own address gives the new mapping if and only if there was a free slot and no higher slot than the first free one maps it already |
| Scenarios.NewestIsHidden | router/sr_arpcache.c:164-186 | From start-up, on the table of 100 slots: a reply at second 18 is recorded, and a lookup still finds the mapping of second 10 |
| Resolver.InsertTakesFirstFree | router/sr_arpcache.c:254-266 | The first free slot, and no other, takes a new mapping; a full table stays as it is |
| Resolver.ReplyKeepsInvariant | router/sr_router.c:277-299 | Recording a reply keeps the invariant, whether or not the table had room |
| Progress.SweepIsHandles | router/sr_arpcache.c:21-27 | Handling each request present at the start once, the next one being fixed before the current one may go, leaves the original order without exactly the requests given up, and sends exactly what each of them calls for |
| Progress.SweepLeavesSurvivors | router/sr_arpcache.c:37-54 | What a sweep leaves is, in the original order, exactly the requests without five sends and a second since the last, each with its frames, its clock and counter moved on if it was due |
| Progress.RunIsBounded | router/sr_arpcache.c:37-54 | Over every run, each request is broadcast at most five times, consecutive broadcasts at least one second apart, and two pending requests are never the same instance |
| Progress.GivenUpAfterFive | router/sr_arpcache.c:37-46 | In a reachable state a request about to be given up was broadcast exactly five times, the first at least five seconds ago |
| RouterModel.DueDiffersExactly | router/sr_arpcache.c:37 | The coded test of a second or more and the documented one of more than a second differ if and only if exactly one second has passed |
| Progress.RunAdvances | router/sr_arpcache.c:354-378 | Whatever frames arrive in between, a request still pending after k sweeps has been sent k times or more |
| Progress.SettledWithinSixSweeps | router/sr_arpcache.c:354-378 | After any run, whatever frames arrive next, each frame put aside has been released or answered, exactly once, when six more sweeps are over |
| Fates.RunReleasesExactly | router/sr_router.c:277-299 | Over any run a frame put aside is released, once and for good, if and only if an ARP reply from its next hop finds it waiting |
| Fates.RunWritesExactly | router/sr_router.c:284-296 | Over any run a frame put aside reaches the wire on its release if and only if a reply finds it waiting on an interface with the address of the frame's own |
| Fates.FateWithinSixSweeps | router/sr_arpcache.c:33-56 | Within six sweeps a waiting frame is released if a reply from its next hop finds it waiting, and otherwise answered as unreachable: exactly one of the two, by that condition. With a verified table it reaches the wire on its release if and only if that reply came in on an interface with the address of the frame's own |
| InTime.ReplyInTime | router/sr_arpcache.c:36-46 | The first reply from a frame's next hop finds it waiting and releases it if everything before that reply comes less than five seconds after its request was first sent |
| InTime.FirstReplyReleases | router/sr_router.c:232-234 | From start-up, a frame that opens its own request is released by the first reply from its next hop if every event before that reply comes less than five seconds after the frame: a condition on the events alone |
| Returns.UnreachableReturnsExactly | router/sr_arpcache.c:39-44 | Over every run, a host-unreachable message leaves by the interface its frame came in on if and only if the longest-match route of the frame's destination names that interface |
| Scenarios.SilenceBuilds | router/sr_arpcache.c:36-54 | Sweeps one second apart, nobody answering: each sends the request once more, exactly one second after the last send |
| Scenarios.SilenceGivesUp | router/sr_arpcache.c:21-46 | For any frame that is forwarded on an empty table and never answered for, the sixth second finds a request to give up, which is where the coded sweep reads a freed node, and the message to the source leaves by the interface of the route |
| Scenarios.UnreachableGoesElsewhere | router/sr_arpcache.c:39-44 | A run from start-up, in either byte order, whose last message is a host-unreachable one that leaves by another interface than its frame came in on |
| Scenarios.ReleaseIsRefused | router/sr_router.c:284-297 | A run from start-up, in either byte order, in which the reply comes in on another interface: the released frame is refused, and neither it nor its request is left |
| Progress.HistoryGrows | router/sr_router.c:104-237 | No step takes back a frame put aside or a frame sent |
| Freshness.RunIsAnswered | router/sr_arpcache.c:254-266 | In every reachable state each valid entry repeats some ARP reply of the run, hardware address, address and time |
| Freshness.RunIsFresh | router/sr_arpcache.c:363-370 | In every reachable state each valid entry was at most 15 seconds old at the last sweep, so right after one none is older |
| Freshness.ResolveIsReply | router/sr_router.c:277-280 | Only a received ARP reply records a mapping, and it records the sender's |
| Answers.EchoIsAnswered | router/sr_router.c:137-158 | An accepted ICMP frame of 38 octets or more for the router is answered if and only if RFC 1071 accepts what follows its IP header to the end of the frame, the stored checksum is not 0x0000 and the type is 8; the reply goes from the address asked to the asker with the same identifier, sequence number and data, and its total length is that of the frame without its Ethernet header |
| Padding.ReplyLengthExactly | router/sr_router.c:386-438 | For every request up to 65549 octets, the total length in the reply is the one in the request if and only if nothing follows the datagram in its frame |
| Padding.ReplyIsRightExactly | router/sr_router.c:400-409 | The reply to a frame is the reply to its datagram alone if and only if nothing follows the datagram |
| Padding.PaddingDecides | router/sr_router.c:145-153 | A request that would be answered without its padding is answered with it if and only if the padding adds a multiple of 65535 to the sum, whether the datagram has an even or an odd length; and such padding changes no decision |
| Scenarios.PaddedEcho | router/sr_router.c:145-153 | One echo request: answered bare; answered with a longer datagram when padded with zeros; dropped when padded otherwise |
| Answers.PortIsUnreachable | router/sr_router.c:159-169 | Another frame for the router, if it has the 42 octets that are quoted, is answered if and only if it is TCP or UDP: port unreachable, from the address it was sent to, quoting it |
| Answers.TransitOrError | router/sr_router.c:170-200 | A frame for somebody else goes on if and only if its TTL is not 1 and some route matches; otherwise its source is sent time exceeded or net unreachable from the arrival interface, given the 42 octets that are quoted |
| Answers.QuoteIsNeverOriginal | router/sr_router.c:410-420 | No error quotes the 28 octets as they came: of an accepted header either the checksum is zeroed or TTL and checksum have moved on |
| Answers.ArpExchange | router/sr_router.c:251-280 | The broadcast of one router, received by another where the address asked for is, is answered, and the answer makes the first record exactly that address with that interface's hardware address |
| Answers.ReplyResolves | router/sr_arpcache.c:235-271 | After a reply its request is gone; its address is looked up as the new mapping unless that is shadowed, and every other address as before, whatever the table held |
| Forwarding.TransitFacts | router/sr_router.c:170-200 | A frame in transit had an accepted header, is not for the router, changes in TTL and checksum alone, and takes the longest match of its destination |
| Forwarding.TravelIsBounded | router/sr_router.c:179-214 | Through any chain of such routers a frame with TTL t of at least 1 is forwarded at most t - 1 times, each time with TTL t less the hops made, a header RFC 1071 accepts, the Ethernet addresses of that hop, and all else as it came |
| Forwarding.ArrivingTtl | router/sr_router.c:179-183 | TTL 1 is the only one that stops a routable frame; TTL 0 wraps and the frame leaves with 255 |
| Scenarios.ZeroTtlIsForwarded | router/sr_router.c:179-183 | A frame with a right checksum and TTL 0, and the router forwarding it with TTL 255 |
| Forwarding.AgedFrame | router/sr_router.c:179-186 | Ageing a frame in its buffer changes the TTL and the header checksum and nothing else |
| Forwarding.DecisionIsDeliverable | router/sr_router.c:206-235 | With a verified routing table every frame sent at once finds its interface and carries that interface's address, and every frame put aside names an interface that exists |
| Forwarding.ReleasesOnTheWire | router/sr_router.c:284-296 | A released frame reaches the wire if and only if the interface the reply came in on has the address of the one the frame leaves by |
| Forwarding.RunIsDelivered | router/sr_vns_comm.c:486-516 | With a verified table, no run has a frame refused by the source-address guard, except a released one that carries another interface's address; `Addressing.ReleasedReachesExactly` says which those are |
| Frames.Unreachable3IsWellAddressed | router/sr_arpcache.c:112-158 | The host-unreachable message goes from the outgoing interface's address to the source of the waiting frame, quotes its first 28 octets, and has both checksums right by RFC 1071 |
| Frames.ErrorAnswerIsWellAddressed | router/sr_router.c:410-448 | The same of the errors sent at once |
| Frames.EchoAnswerIsWellAddressed | router/sr_router.c:400-448 | The echo reply goes back to the asker with the data it came with, and both checksums right |
| Checksum.SumWords | router/sr_utils.c:15-20 | The first loop computes the sum of the 16-bit words modulo 2 to the 32, an odd last octet counting as a high one |
| Checksum.Fold | router/sr_utils.c:21-23 | Folding keeps the sum modulo 65535 and whether it is 0, and ends within two rounds |
| Checksum.FoldAndComplement | router/sr_utils.c:21-25 | The result is 65535 less the residue of the sum, never 0 |
| Checksum.ComputeCksum | router/sr_utils.c:11-26 | The two loops together compute the closed form for every buffer |
| Checksum.CksumExact | router/sr_utils.c:11-26 | The result is the RFC 1071 checksum if and only if the 32-bit accumulator wrapped a multiple of 65535 times |
| Checksum.CksumIsRfc1071 | router/sr_utils.c:11-26 | Up to 131074 octets, odd lengths included, the accumulator never wraps and the result is the RFC 1071 checksum, never 0 |
| Checksum.BoundIsSharp | router/sr_utils.c:13-17 | A buffer two octets longer for which the result is wrong |
| Checksum.StampIsAccepted | router/sr_router.c:185-186 | Zeroing the field and storing the checksum makes a buffer RFC 1071 accepts, whatever it held, with a field other than 0x0000 |
| Checksum.AcceptanceSet | router/sr_router.c:145-153 | Zeroing the field, recomputing and comparing accepts exactly the buffers RFC 1071 accepts whose field is not 0x0000 |
| IpHeader.AcceptanceIsRfc1071 | router/sr_router.c:122-127 | The header check passes if and only if RFC 1071 accepts the header and the stored field is not 0x0000 |
| IpHeader.ZeroChecksumIsDropped | router/sr_router.c:122-127 | A header RFC 1071 accepts and the router drops |
| IpHeader.AgedIsValid | router/sr_router.c:179-186 | The header that goes on is accepted by RFC 1071 and by the next such router, and differs in TTL and checksum alone |
| IpHeader.AgedChecksum | router/sr_router.c:179-186 | The new checksum is the one value in 1..0xffff congruent to the old plus 0x0100 modulo 65535, the incremental update of RFC 1141 |
| Network.MaskOrderIsPrefixOrder | router/sr_rt.c:172 | For contiguous masks, comparing the raw words as the host loads them, in either byte order, is comparing prefix lengths |
| Network.LongestMatchIsLongestPrefix | router/sr_rt.c:164-179 | For every table of contiguous masks, in either byte order, the scan returns the earliest of the covering entries with the longest prefix, and nothing only if no entry with a non-zero mask covers the destination |
| Network.DefaultRouteMatches | router/sr_rt.c:172 | An entry with mask 0.0.0.0 matches every destination |
| Network.DefaultRouteIsIgnored | router/sr_rt.c:165-175 | And yet it is never chosen, in any table, contiguous masks or not, not even alone |
| RoutingTable.RouteList.LongestPrefixMatch | router/sr_rt.c:164-179 | The scan of the linked list returns the node at the position `LongestMatch` names, or null |
| RoutingTable.RouteList.AddEntry | router/sr_rt.c:79-116 | The entry joins the end of the list; the nodes before it stay and stay in order |
| RoutingTable.VerifyRoutingTable | router/sr_main.c:257-289 | The result is 0 if and only if both lists have entries and every route leaves by an interface that exists; it is 999 if a list is empty, and otherwise the number of routes that do not |
| Interfaces.IfList.GetInterface | router/sr_if.c:37-54 | The first node of that name in the list, or null if and only if there is none |
| Interfaces.IfList.GetByAddress | router/sr_router.c:351-360 | The first node with that address, or null if and only if there is none |
| Interfaces.IfList.AddInterface | router/sr_if.c:64-91 | A node of that name joins the end, its addresses whatever the memory held; the nodes before it stay and stay in order |
| Interfaces.IfList.SetEtherAddr | router/sr_if.c:101-115 | The last node takes the hardware address and nothing else changes |
| Interfaces.IfList.SetEtherIp | router/sr_if.c:125-139 | The last node takes the address and nothing else changes |
| HardwareInfo.HandleHwInfo | router/sr_vns_comm.c:162-216 | The loop over a message folds its whole entries into the list and returns their number; it stops where an address comes before the first interface, and only there; on what the server packs for any interfaces, the list grows by exactly those |
| HardwareInfo.AbsorbEntry | router/sr_vns_comm.c:175-209 | A name opens an interface, an address goes to the last one, every other key is passed over |
| HardwareInfo.RoundTrip | pox_module/cs144/VNSProtocol.py:149-159 | For any interfaces on the server side, handling the packed message appends exactly them to the router's list, in order, names cut at the first NUL and at 32 octets, whatever the fresh nodes held |
| HardwareInfo.NameSurvives | pox_module/cs144/VNSProtocol.py:152-154 | A name arrives as it was if and only if it has no NUL and at most 32 octets |
| ArpCache.Cache.LookupEntry | router/sr_arpcache.c:164-186 | A copy of the mapping in the last valid slot for the address |
| ArpCache.Cache.InsertEntry | router/sr_arpcache.c:254-266 | The mapping goes to the first free slot; a full table stays as it is |
| ArpCache.Cache.ExpireEntries | router/sr_arpcache.c:365-370 | Exactly the valid entries older than 15 seconds become invalid |
| ArpCache.Cache.QueueReq | router/sr_arpcache.c:194-229 | The frame is at the front of the list of the request for its next hop, which is created at the front of the queue if and only if there was none; the queue stays a list without repetition |
| ArpCache.Cache.Unlink | router/sr_arpcache.c:240-252 | Exactly the named node leaves the queue, all others stay in order, and the queue stays a list without repetition |
| ArpCache.Cache.TakeOut | router/sr_arpcache.c:279-293 | The request leaves the queue if it is there, and its list then belongs to no request |
| ArpCache.Cache.FreePackets | router/sr_arpcache.c:295-306 | The walk frees exactly the nodes of a list, each once, and touches no list of the queue |
| ArpCache.Cache.InsertMapping | router/sr_arpcache.c:235-271 | The mapping is recorded, and the request for its address, if any, is out of the queue and not yet freed, its frames still on it |
| ArpCache.Cache.Destroy | router/sr_arpcache.c:275-312 | The request and exactly the nodes of its list are freed, none of them freed before and none on another list; it leaves the queue if it was there, and otherwise, as on the reply path, the queue is unchanged |
| ArpCache.Cache.MarkSent | router/sr_arpcache.c:52-53 | The request's clock and counter move on and nothing else does |
| Buffers.StampInPlace | router/sr_router.c:185-186 | A stretch of a buffer gets its checksum and the rest of the buffer is untouched |
| Router.Router.SendPacket | router/sr_vns_comm.c:529-572 | The result is 0 if and only if the interface exists and the frame carries its address as source |
| Router.Router.CreateArpRequest | router/sr_arpcache.c:62-100 | The broadcast asking for an address from an interface, octet by octet |
| Router.Router.SendIcmpT3 | router/sr_arpcache.c:112-158 | The ICMP error for a waiting frame, built in a buffer with both checksums computed over it |
| Router.Router.HandleArpReq | router/sr_arpcache.c:33-56 | The step `HandleRequest` of the machine; the node is freed if and only if the request is given up |
| Router.Router.SweepRequests | router/sr_arpcache.c:21-27 | With the next pointer saved, each request present at the start is handled once; reading it afterwards would read a freed node if and only if some request is given up |
| Router.Router.Timeout | router/sr_arpcache.c:354-378 | One pass of the timeout thread is the sweep step of the machine |
| Router.Router.HandleReply | router/sr_router.c:277-299 | The reply step of the machine; a node that left the queue was freed |
| Router.Router.HandleArp | router/sr_router.c:240-301 | An ARP frame takes the step the machine decides on |
| Router.Router.SendIcmpResponse | router/sr_router.c:362-455 | The immediate answer, built in a buffer with both checksums computed over it |
| Router.Router.ForwardFrame | router/sr_router.c:206-235 | A hit rewrites the two addresses in place and sends; a miss puts the frame aside and handles its request at once |
| Router.Router.HandleIp | router/sr_router.c:104-237 | An IP frame of any length, changed in place on the way, takes the step the machine decides on from the frame as it came, unless that reads past its end |
| Router.Router.HandlePacket | router/sr_router.c:79-101 | Any receivable frame takes exactly the step of the machine, unless that reads past its end, and the router stays valid |
| Router.Router.constructor | router/sr_arpcache.c:331-345 | A router starts in the one initial state of the machine, on the configuration of its two lists |
| Session.Handle | router/sr_router.c:79-101 | Any event, a frame in a buffer of its own or a sweep, takes exactly its step of the machine, unless that reads past a short frame |
| Session.Serve | router/sr_vns_comm.c:391-443 | Over a table that passes the check, any sequence of events of which none reads past a short frame leaves the heap in the state the machine's run from start-up ends in, each frame put aside in exactly one place; over any other table there is no session |
| Session.LongFramesAreRead | router/sr_router.c:117-120 | If every IP frame has 42 octets or fails the 34-octet check, no event of any run reads past a frame |
| Sha1Context.Context.Reset | router/sha1.c:70-83 | The context takes input again, with nothing consumed |
| Sha1Context.Context.ProcessMessageBlock | router/sha1.c:193-269 | The digest words become the FIPS PUB 180-1 compression of themselves and the block in the buffer |
| Sha1Context.AssembledIsWord | router/sha1.c:204-209 | Four octets shifted and joined are the word whose digits they are |
| Sha1Context.ExpandBlock | router/sha1.c:204-213 | The two loops fill the 80 words of the schedule of the standard |
| Sha1Context.RunRounds | router/sha1.c:215-260 | The four loops of twenty assignments are the 80 rounds of the standard |
| Sha1Context.Context.AcceptByte | router/sha1.c:149-167 | One octet keeps the context invariant: index 0 to 63, the two length words counting the bits consumed, the digest words chaining the whole blocks; it is corrupted if and only if the length reaches 2 to the 64 bits |
| Sha1Context.Context.Input | router/sha1.c:137-171 | The context moves as `Fed` says: the piece is appended, or the context is corrupted, exactly on reaching 2 to the 64 bits or on non-empty input after a result |
| Sha1Context.Context.PadMessage | router/sha1.c:294-332 | The digest words become the FIPS PUB 180-1 digest of everything consumed, after (octets + 8) / 64 + 1 blocks in all |
| Sha1Context.Context.Result | router/sha1.c:102-113 | The context is finished once; a corrupted one stays corrupted and gives 0 |
| Sha1Context.HistoryClosedForm | router/sha1.c:137-171 | However a message is split over calls, the context ends with the message as a whole; it is unusable if and only if the message reaches 2 to the 64 bits or something not empty was fed after the result |
| Sha1Context.Replay | router/sha1.c:102-171 | A context put through any history of calls is in the state of that closed form, and once it gave a result its words are the digest of the whole message |
| Sha1Context.HashPieces | router/sha1.c:137-171 | For any pieces under 2 to the 64 bits in all, the digest is that of their concatenation |
| Messages.BuildAuthReply | router/sr_vns_comm.c:254-279 | The reply unpacks, on the Python side, to the user name and SHA-1(salt followed by key) in network order |
| Messages.ReplyRoundTrip | pox_module/cs144/VNSProtocol.py:343-352 | Unpacking undoes packing |
| Messages.DeclaredReplyIsCut | pox_module/cs144/VNSProtocol.py:340-344 | A receiver that takes only the declared number of octets loses the last four of the digest |
| Messages.GetBannersAndClose | pox_module/cs144/VNSProtocol.py:57-66 | The loop sends the pieces of 255 octets in order, banners and then one close |
| Messages.GetBanners | pox_module/cs144/VNSProtocol.py:171-177 | The same pieces, banners only |
| Messages.TextRoundTrip | pox_module/cs144/VNSProtocol.py:57-84 | Splitting, packing, unpacking and joining gives the text without its NULs, so the text itself if and only if it has none |
| Messages.MinimumExactly | pox_module/cs144/VNSProtocol.py:57-66 | The number of messages is the least possible if and only if the text is empty or its length is no multiple of 255 |
| Templates.UnpackTemplate | pox_module/cs144/VNSProtocol.py:287-300 | The loop returns every filter, or the first mask over 32 as an error, or fails on a body shorter than the two names |
| Templates.PackedUnpacks | pox_module/cs144/VNSProtocol.py:283-300 | What any packed template unpacks to, error case included |
| Templates.TemplateRoundTrip | pox_module/cs144/VNSProtocol.py:255-300 | A template survives if and only if its names fit and have no NUL and no mask is over 32; the empty list arrives as the default filter |
| Templates.DeclaredLengthReadsSixMore | pox_module/cs144/VNSProtocol.py:265-300 | A receiver that takes the declared number of octets of a stream reads the filters of the template and exactly six more, made of what follows |

## Left out

- Sockets, the session loop, file reading and the log file: sending is an entry in `log`, receiving an event.
- Threads, mutexes and failing allocations: every event is one atomic step, and allocation succeeds.
- `sr_send_packet` on frames under 14 octets: the router builds and forwards none. The framing it adds for the server, with names cut at 16 octets, is left out with the socket.
- Router.Router.HandlePacket: ARP frames under 42 octets are not covered, nor the events `Decide` calls `Overreads` (an IP frame of 34 to 41 octets that is to be quoted or put aside, or an ICMP frame for the router under 38), because the source then reads past the end of the buffer.
- Router.Router.HandleIp: the same `Overreads` events are not covered; and it takes a 20-octet header for granted as the source does, so IP options are forwarded and quoted as if they were payload.
- Session.Serve: a run that comes to an `Overreads` event is covered only up to that event.
- Router.Router.SweepRequests: follows the saved next pointer, not the coded order, whose effect is undefined once a request is given up; `dangling` says exactly when that is.
- Buffers are values once they stand on a waiting list: `Packet` holds its frame as an immutable sequence, so writing to a queued buffer, which the source never does, is not expressible.
- Freed memory: `freed` and `freedPackets` record requests and the nodes of their lists; the buffer and the interface name of a node are values in it and go with it.
- `send_arp_reply`, which nothing calls, and the print through the uninitialised `response_icmp_hdr` at `router/sr_router.c:422`.
- Messages.BuildAuthReply: the key is a parameter of 64 octets; reading it from the `auth_key` file, where a shorter line leaves part of the buffer unset, is not modelled.
- Sha1Context.Context.Input: hashes whole octets, as the source does; messages whose bit length is no multiple of 8 are outside it.
- Addresses in the text form that `inet_aton` and `inet_ntoa` convert: `Templates` has them as four octets.
- `VNSOpen`, `VNSPacket`, `VNSRtable` and `VNSAuthStatus`: fixed fields like those of the messages modelled, so they would only add easy members.
- Message framing by length and type on the Python side, which is a library not in the repository; the POX and OpenFlow handlers, the Mininet set-up, the web servers and the scripts.
- The strength of SHA-1: only agreement with the standard is proved.
