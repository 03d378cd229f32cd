# A verified model of the l3fwd burst pipeline

This project models the packet path of one `l3fwd` lcore in Dafny, in the form the C code has, and proves what it is
for. A burst of packet buffers is received, every packet gets a destination port from the exact-match table (or the
longest-prefix table), its Ethernet and IPv4 headers are rewritten in place, consecutive packets for one port are
grouped by the table-driven four-wide step, and groups go into bounded TX buffers that are flushed when they fill up and
drained by a timer. The fast forms of these steps are proved to refine the one-packet-at-a-time functions of the same
repository. Around that core the project models the experiment logic: flow table generation, the strided memory walk,
queue set-up, the generator's checksums and its report baton.

`dafny verify dfyconfig.toml` checks everything.

## Main results

- **The fast path refines the simple one.** `BurstPaths.L3fwdEmSendPackets` and `BurstPaths.L3fwdEmNoOptSendPackets` are
  the two paths of a burst, in place, over arrays and packet objects; each is proved against a function.
  `LoopRefinement.FastLoopRefinesSimpleLoop` compares whole runs of the two: each port is given the same packets in the
  same order, the same packets are dropped, and the others leave with the same bytes, whatever the two NICs accept and
  whenever the two loops drain. It holds for all runs of compatible packets, whatever their types, and
  `Forwarding.SameVerdictsIff` and `LoopRefinement.LoopsDropAlikeIff` show that it holds for no others: a burst gets the
  same verdicts, and a run the same drops, exactly if every packet is compatible. Blocks of mixed types, on which the
  eight-wide and the sequential classification may differ, are no exception.
- **Grouping is run-length encoding** for every burst length that the 16-bit counters can hold, whatever the
  uninitialised counter array holds, exactly if the first port of a burst of fewer than four packets is not the value
  `BAD_PORT - 1` that the code takes as never used (`PortGrouping.GroupsAlwaysIffNoClash`).
- **Whole runs.** In every state that any interleaving of bursts and drains reaches, with any NIC, each port has been
  given its arrivals in order (`Dispatch.PortsAreFifo`), and every packet is in exactly one of accepted, freed and
  buffered (`Dispatch.PacketsAreConserved`, `Dispatch.EveryPacketInOnePlace`). A turn of the main loop is such a run, and
  leaves in every packet the bytes of the fast path (`MainLoop.EmMainLoopTurn`).
- **The drain** leaves nothing behind in any run of the main loop exactly if no table entry names an enabled port that
  is not on the board (`Stranding.DrainsAllIff`).
- **What happens to a frame.** `ExactMatch.ParsedPortsGo` and `Forwarding.ParsedFramesForwarded` give the port and every
  final byte of a frame in terms of its bytes and the tables; `ExactMatch.WidePortsGo`, `Forwarding.FastOutIs` and
  `LongestPrefix.LpmPortsGo` do so for packets of any types.
- **Bulk classification** equals one call per packet exactly for bursts whose blocks of eight are of one type
  (`ExactMatch.ClassifyAlikeIffUniform`); bursts typed by `em_parse_ptype` are
  (`ExactMatch.ParsedBurstsClassifyAlike`), bursts typed otherwise need not be (`ExactMatch.ExtensionHeaderBreaksBlock`).
- **Flow tables.** Population succeeds exactly if the hash takes every key (`FlowTables.EmTable.PopulateIpv4Many`); a hash
  that only refuses when full does so for up to as many turns as it has slots, or for any number of turns if it has more
  than 2^25 slots (`FlowTables.AllAddedIff`). Then lookups have a closed form (`FlowTables.PopulatedLookup`).
- **Checksums.** A valid header survives k hops exactly while its raw checksum plus k does not exceed 0xffff
  (`OnesComplement.ChecksumSurvivesIff`).
- **Protocol.** With any number of cores and any interleaving of single reads and writes, the report baton is exclusive
  and no update is lost (`ReportBaton.BatonIsExclusive`, `TotalsAreExact`). A schedule finishes exactly if it contains the
  remaining accesses in order (`FinishesIff`), so every fair one does (`FairSchedulesFinish`).

## How the code is represented

- A packet buffer is an object whose bytes and type are updated in place; its data room has at least 66 bytes, so that
  every load the code makes is inside it. The buffers of a burst are distinct, as those of a memory pool are.
- `LcoreConf` holds `m_table` and `len` as arrays. `log` and `freed` stand for the NIC and the packet pool: they record
  the calls of rte_eth_tx_burst and rte_pktmbuf_free. The NIC is an arbitrary function of everything offered so far; it
  accepts any prefix of a burst.
- When a group fills a TX buffer exactly, the unrolled copy after the flush still runs one turn and reads the four slots
  behind the group. In the packet array of the main loop, which has 32 slots, these may lie behind its end. What is
  found there is an arbitrary function `stray`, and `strays` counts such reads; what is copied lies beyond `len`, so the
  buffer is unaffected.
- Counters and checksums wrap at 16 bits, the TTL at 8, as in the code; bytes are laid out for a little-endian host.
  The shift in `1 << portid` takes its count modulo 32. The type constants are those of DPDK's `rte_mbuf_ptype.h`, and
  `RTE_MAX_ETHPORTS` is 32 and `RTE_MAX_LCORE` 128 as in DPDK 17.08.
- `rte_hash` is a map from keys to slots; arbitrary functions of its contents decide which adds it refuses and which free
  slot it picks, and an add also fails if no slot is free, even for a known key; `rte_lpm` and `rte_lpm6` are functions of the
  address with 24-bit next hops.
- A row of `gptbl` is written as its four counters, lowest first, instead of one 64-bit constant. Of a vector register
  only the lanes that are used are modelled.
- Where a method works through a burst, ghost parameters name the buffers and their contents on arrival.

Where code and documentation differ, the model follows the code:

- The generator's checksum fields are not cleared before a buffer is filled again, so the checksum is right exactly if
  the old field was 0, or 0xffff beside other non-zero data (`OnesComplement.GeneratedChecksumVerifiesIff`).
- `app_thread_sendnumpkts`, which reports with the baton, is not the function that the generator's `main` launches.
- `get_port_n_rx_queues` returns eight bits, so 256 queues would be counted as 0; `check_lcore_params` excludes that.
- The comment "never used values" on `BAD_PORT - 1` holds because ports are below 32, not for all 16-bit ports.
- The start-up checks accept a port mask that names absent ports; packets for those are never drained.
- The copy of `send_packetsx4` may read up to four slots behind the packet array, for bursts of more than 28 packets
  (`TxBuffer.MayStrayIff`).

## Model

| member | source | states |
|---|---|---|
| PortGrouping.TableIsRunLengths | l3fwd/l3fwd_common.h:106-207 | all sixteen rows: counters are the run lengths inside the five-port window, the index is the head of its last run, and the increment is what the first run adds |
| PortGrouping.GroupStepAdvances | l3fwd/l3fwd_sse.h:98-123 | one four-wide step keeps the invariant: lp heads the open run with the right count and earlier heads are final, also when lp is a slot that is overwritten and when nothing is written |
| PortGrouping.ScalarStepAdvances | l3fwd/l3fwd_common.h:96-104 | the scalar step keeps the same invariant |
| PortGrouping.OnlyLowLanesCount | l3fwd/l3fwd_sse.h:180-194 | lanes above the fourth do not influence the step |
| PortGrouping.VectorLoopGroups | l3fwd/l3fwd_sse.h:166-194 | invariant of the vector loop, for every length |
| PortGrouping.VectorPhaseGroups | l3fwd/l3fwd_sse.h:196-207 | the step with the last port repeated and the decrement leave exact counts for all packets so far |
| PortGrouping.ScalarTailGroups | l3fwd/l3fwd_sse.h:214-230 | the scalar tail completes the run-length encoding |
| PortGrouping.GroupPortsIsRunLengths | l3fwd/l3fwd_sse.h:165-230 | grouping is run-length encoding of the ports, whatever the counter array held, for up to 65535 packets |
| PortGrouping.ClashFails | l3fwd/l3fwd_sse.h:208-212 | with the sentinel as first port of a short burst some initial array gives a wrong count |
| PortGrouping.GroupsAlwaysIffNoClash | l3fwd/l3fwd_sse.h:165-230 | grouping is right for all initial arrays if and only if there is no such clash |
| PortGrouping.CounterIsFirstRun | l3fwd/l3fwd_sse.h:239-253 | at a head the counter is the length of the run there, and the next position is a head with another port or the end |
| PortGrouping.PortGroupx4 | l3fwd/l3fwd_sse.h:98-123 | the in-place step equals its specification |
| PortGrouping.GroupPortStep | l3fwd/l3fwd_common.h:96-104 | the in-place scalar step equals its specification |
| TxSpec.SendGroupAppends | l3fwd/l3fwd_common.h:209-291 | a group is appended to what was offered to or buffered for its port, other ports are untouched, and the buffer is again below its bound: a direct send never overtakes |
| TxSpec.SendGroupCounts | l3fwd/l3fwd_common.h:209-291 | no packet is lost or duplicated by a group send, and none is dropped that the NIC did not refuse |
| TxSpec.OfferCounts | l3fwd/l3fwd.h:127-146 | offering accounts for every packet: accepted or freed |
| TxSpec.SendSingleIsGroup | l3fwd/l3fwd.h:149-167 | a single enqueue is a group of one |
| TxSpec.GroupIsSinglesIff | l3fwd/l3fwd_common.h:209-291 | a group send ends in the very state of single enqueues, with the same NIC calls, if and only if it is not a direct send of less than a full burst |
| TxSpec.GroupOffersIff | l3fwd/l3fwd_common.h:217-288 | when a group reaches the NIC: 16 packets or more at once on an empty buffer, otherwise in a burst of 32 as soon as there are 32, else not yet |
| TxSpec.SendEachAppends | l3fwd/l3fwd.h:149-167 | single enqueues append the packets in order |
| TxSpec.GroupRefinesSingles | l3fwd/l3fwd_common.h:209-291 | in every case, for any two NICs, both leave the same packets offered or buffered in the same order, and no full buffer |
| TxBuffer.LcoreConf.constructor | l3fwd/l3fwd.h:80-100 | empty buffers |
| TxBuffer.LcoreConf.SendBurst | l3fwd/l3fwd.h:127-146 | offers the first n slots and frees exactly what was refused |
| TxBuffer.LcoreConf.SendSinglePacket | l3fwd/l3fwd.h:149-167 | the in-place enqueue equals its specification |
| TxBuffer.LcoreConf.CopyIn | l3fwd/l3fwd_common.h:238-257 | the unrolled copy copies n slots, and four for n = 0, and changes no other slot of any port |
| TxBuffer.LcoreConf.SendStraightAway | l3fwd/l3fwd_common.h:217-229 | the direct send equals its specification |
| TxBuffer.LcoreConf.SendThroughBuffer | l3fwd/l3fwd_common.h:231-290 | the path through the buffer, with at most one flush, equals its specification, for every packet array; the number of reads behind the array is exact |
| TxBuffer.LcoreConf.SendPacketsx4 | l3fwd/l3fwd_common.h:209-291 | both branches together |
| TxBuffer.LcoreConf.Fill | l3fwd/l3fwd_common.h:235-259 | as much of the group as fits is put behind the buffered packets, without reading behind the array |
| TxBuffer.LcoreConf.FlushAndRefill | l3fwd/l3fwd_common.h:264-287 | the full buffer is offered, and the rest of the group becomes the buffer |
| TxBuffer.MayStrayIff | l3fwd/l3fwd_common.h:266-287 | some group of a burst can make the copy read behind the 32-slot array if and only if the burst has more than 28 packets |
| TxBuffer.LcoreConf.DrainPorts | l3fwd/l3fwd_em.c:700-717 | the drain in place equals its specification |
| Dispatch.DispatchGroupsLines | l3fwd/l3fwd_sse.h:232-253 | dispatch by runs gives every port the packets routed to it, in order, after what it had |
| Dispatch.DispatchGroupsCounts | l3fwd/l3fwd_sse.h:232-253 | dispatch by runs loses and duplicates nothing and drops exactly the packets for BAD_PORT |
| Dispatch.DispatchEachLines | l3fwd/l3fwd_em.h:118-141 | the same order for packet-by-packet sending |
| Dispatch.DispatchEachCounts | l3fwd/l3fwd_em.h:118-141 | the same accounting for packet-by-packet sending |
| Dispatch.GroupsRefineEach | l3fwd/l3fwd_sse.h:232-253 | sending by groups refines sending one by one for any two NICs |
| Dispatch.DrainEmpties | l3fwd/l3fwd_em.c:700-717 | a drain empties the listed buffers, leaves the others and keeps every port's order |
| Dispatch.DrainOffers | l3fwd/l3fwd_em.c:706-714 | a drain makes exactly one call for each listed port with buffered packets |
| Dispatch.DrainStrandsNothingIff | l3fwd/l3fwd_em.c:700-717 | all buffers are empty after a drain if and only if no packet waits for an unlisted port |
| Dispatch.PortsAreFifo | l3fwd/l3fwd_em.c:696-748 | in every reachable state, offered then buffered is the sequence of arrivals, port by port |
| Dispatch.PacketsAreConserved | l3fwd/l3fwd_em.c:696-748 | in every reachable state each packet is accepted, freed or buffered as often as received; freed means refused by the NIC or classified bad |
| Dispatch.EveryPacketInOnePlace | l3fwd/l3fwd_em.c:696-748 | a packet received once is in exactly one place |
| Dispatch.BurstsUseOwnQueues | l3fwd/l3fwd.h:135-138 | in every reachable state every burst went to the lcore's own queue on its port, with 1 to 32 packets |
| Dispatch.RunsCompare | l3fwd/l3fwd_em.c:696-748 | two runs with any two NICs give a port the same packets if the same arrived for it, and drop the same packets if and only if the same were classified bad |
| Dispatch.RunRefinesOneByOne | l3fwd/l3fwd_em.c:696-748 | for given final destinations, grouping, direct sends, drain times and the NIC are invisible in what each port is given and in what is dropped |
| Dispatch.RunConcat | l3fwd/l3fwd_em.c:696-748 | runs compose |
| Dispatch.DrainOffersAllArrivals | l3fwd/l3fwd_em.c:700-717 | after a drain that lists a port, or finds its buffer empty, everything that arrived for the port has been offered |
| Frames.HeaderChecksAgree | l3fwd/l3fwd_common.h:59-76 | the branch-free check rejects exactly what the step-by-step check of section 5.2.2 of RFC 1812 rejects for a sufficient link length |
| Frames.MacRewritesAgree | l3fwd/l3fwd_sse.h:57-78 | load, blend and store write the same bytes as the overlapping eight-byte store and the copy of the simple path |
| Frames.MacAndHopCommute | l3fwd/l3fwd_sse.h:69-87 | MAC rewrite and TTL update commute |
| Frames.LateStoreIsHarmless | l3fwd/l3fwd_sse.h:138-145 | storing the header bytes that were loaded before the TTL update does not undo it |
| Frames.RewriteKeepsHeader | l3fwd/l3fwd_sse.h:80-87 | the rewrites do not change the outcome of the header check |
| ExactMatch.MaskedBytes | l3fwd/l3fwd_em.c:260-266 | a masked load keeps the bytes under ones and clears those under zeros |
| ExactMatch.Ipv4KeyIsTuple | l3fwd/l3fwd_em.c:353-364 | for option-free headers the masked key equals the converted tuple if and only if the packet has that 5-tuple |
| ExactMatch.Ipv4KeyOfFixed | l3fwd/l3fwd_em.c:353-364 | whatever the header length, the masked key is that of the tuple at the fixed offsets |
| ExactMatch.Ipv6KeyIsTuple | l3fwd/l3fwd_em.c:366-382 | the same for the three-part IPv6 key |
| ExactMatch.RewriteKeepsIpv4Key | l3fwd/l3fwd_em.c:287-308 | MAC, TTL and checksum rewrites do not change the key |
| ExactMatch.UsablePort | l3fwd/l3fwd_em_hlm.h:129-131 | the port found is kept if and only if it exists and is enabled (or is the incoming one anyway); otherwise the incoming one is taken |
| ExactMatch.OnePort | l3fwd/l3fwd_em_hlm.h:129-131 | a mask with one bit enables exactly that port |
| ExactMatch.MaskUnion | l3fwd/l3fwd_em_hlm.h:129-131 | the union of two masks enables the ports of either |
| ExactMatch.ParserSays | l3fwd/l3fwd_em.c:603-640 | every bit of the parsed type in terms of Ethernet type, header length and protocol |
| ExactMatch.WidePortsGo | l3fwd/l3fwd_em_hlm.h:177-213 | closed form of the eight-wide result for packets of any types: the port of the table entry with the packet's 5-tuple if usable, or the incoming port |
| ExactMatch.NoLookupStays | l3fwd/l3fwd_em_hlm.h:152 | without a TCP or UDP bit a packet goes back to the incoming port |
| ExactMatch.ParsedPortsGo | l3fwd/l3fwd_em_hlm.h:107-153 | the same closed form for parsed frames, over their bytes |
| ExactMatch.AndOfBlock | l3fwd/l3fwd_em_hlm.h:179-184 | the and-ed type has every bit that all types share |
| ExactMatch.ClassifyWideIsEach | l3fwd/l3fwd_em_hlm.h:159-213 | on uniform blocks the eight-wide form equals the sequential one |
| ExactMatch.ParsedTypeInBlock | l3fwd/l3fwd_em.c:603-640 | the parser sets an L4 bit only beside the plain L3 type, so and-ing types cannot mislead |
| ExactMatch.ParsedBurstsClassifyAlike | l3fwd/l3fwd_em_hlm.h:159-213 | every burst typed by the parser classifies alike |
| ExactMatch.ClassifyAlikeIffUniform | l3fwd/l3fwd_em_hlm.h:177-210 | the two forms agree for all tables and contents if and only if the blocks are uniform |
| ExactMatch.ExtensionHeaderBreaksBlock | l3fwd/l3fwd_em_hlm.h:179-200 | one packet with IPv4 options among TCP packets makes the two forms differ for some table |
| Forwarding.VerdictsAgreeIffCompatible | l3fwd/l3fwd_em.h:37-112 | one packet, at any port the fast path may have found for it: same drop decision, port and bytes if and only if it is IPv6 with TCP or UDP, IPv4 with TCP or UDP and a link length of at least 20 or a bad header, or another packet with a bad IPv4 header; otherwise only the simple path drops it |
| Forwarding.FastOutIs | l3fwd/l3fwd_sse.h:45-88 | final bytes position by position for every type: addresses of the port, TTL minus one and checksum plus one exactly with the IPv4 bit, all else unchanged; dropped exactly with that bit and a bad header |
| Forwarding.BadHeaderIs | l3fwd/l3fwd_common.h:70-73 | the branch-free header check over the bytes: version 4, at least five words, total length at least 20 |
| Forwarding.ParsedFramesForwarded | l3fwd/l3fwd_common.h:59-76 | final bytes and destination of parsed frames by their Ethernet type |
| Forwarding.WidePortsFound | l3fwd/l3fwd_em_hlm.h:177-213 | the eight-wide form finds the sequential port of every packet whose own type calls for a lookup, also in blocks of mixed types |
| Forwarding.SameVerdictIff | l3fwd/l3fwd_em_hlm.h:159-217 | each packet of a burst gets the same verdict from both paths if and only if it is compatible |
| Forwarding.SameVerdictsIff | l3fwd/l3fwd_em.h:37-112 | a burst, eight-wide against simple: same verdicts if and only if all packets are compatible, with no condition on the types |
| Forwarding.FastPathRefinesSimplePath | l3fwd/l3fwd_sse.h:151-254 | the fast path of every burst of compatible packets refines the fold of the simple one: per-port order, drops and bytes |
| Forwarding.Ipv4BurstsQualify | l3fwd/l3fwd_em.h:51-61 | packets of option-free IPv4 with TCP or UDP and at least 20 bytes are compatible |
| Forwarding.MixedBlockQualifies | l3fwd/l3fwd_em_hlm.h:179-200 | a block on which the two classifications may differ, and on which the two paths still agree |
| LoopRefinement.FastLoopRefinesSimpleLoop | l3fwd/l3fwd_em.c:696-748 | whole runs of compatible packets through the fast loop and the simple loop: per-port order, drops and bytes agree for any NICs and any drains |
| LoopRefinement.LoopsDropAlikeIff | l3fwd/l3fwd_em.c:738-746 | two such loops drop the same packets if and only if every packet is compatible |
| LoopRefinement.FewerDropped | l3fwd/l3fwd_em.h:108-111 | the fast loop never drops more packets than the simple one, and as many if and only if all are compatible |
| ForwardingLoops.Rfc1812Process | l3fwd/l3fwd_common.h:59-76 | header check, TTL and checksum in place equal the specification whose bytes FastOutIs gives |
| ForwardingLoops.ProcessPacket | l3fwd/l3fwd_sse.h:130-146 | bytes and destination of one packet, no other packet touched |
| ForwardingLoops.RewriteMacx4 | l3fwd/l3fwd_sse.h:48-78 | four MAC rewrites |
| ForwardingLoops.Rfc1812x4 | l3fwd/l3fwd_sse.h:80-87 | four header checks |
| ForwardingLoops.Processx4Step3 | l3fwd/l3fwd_sse.h:45-88 | four packets at once have the effect of four single ones |
| ForwardingLoops.GroupByFour | l3fwd/l3fwd_sse.h:166-207 | the vector phase: packets processed, counters as specified, although dst_port is overwritten while it is grouped |
| ForwardingLoops.CountLast | l3fwd/l3fwd_sse.h:196-206 | the step with the repeated port and the decrement in place |
| ForwardingLoops.GroupTail | l3fwd/l3fwd_sse.h:214-230 | the switch with its fall-through handles exactly the remaining packets |
| ForwardingLoops.ProcessAndGroup | l3fwd/l3fwd_sse.h:161-230 | the first half of send_packets_multi: all packets processed once, counters as specified |
| ForwardingLoops.FreeGroup | l3fwd/l3fwd_sse.h:249-251 | frees exactly the group |
| ForwardingLoops.DispatchRuns | l3fwd/l3fwd_sse.h:239-253 | the dispatch loop ends, covers every packet once and sends run by run |
| ForwardingLoops.SendPacketsMulti | l3fwd/l3fwd_sse.h:151-254 | the whole function: final bytes of every packet and final TX state |
| BurstPaths.EmCbParsePtype | l3fwd/l3fwd_em.c:642-654 | types every packet of the burst |
| BurstPaths.EmGetDstPortIpv4xN | l3fwd/l3fwd_em_hlm.h:53-78 | eight keys, one bulk lookup, eight usable ports; other entries unchanged |
| BurstPaths.EmGetDstPortIpv6xN | l3fwd/l3fwd_em_hlm.h:80-105 | the same for IPv6 |
| BurstPaths.AndPacketTypes | l3fwd/l3fwd_em_hlm.h:179-184 | the and of eight packet types |
| BurstPaths.ClassifyBurst | l3fwd/l3fwd_em_hlm.h:170-213 | the loops fill dst_port with the eight-wide result whose closed form is WidePortsGo |
| BurstPaths.L3fwdEmSendPackets | l3fwd/l3fwd_em_hlm.h:159-217 | the fast path of a burst in place: classification, TX state, and the final bytes of every packet position by position |
| BurstPaths.L3fwdEmSimpleForward | l3fwd/l3fwd_em.h:37-112 | the simple path of one packet in place: bytes, freed or enqueued |
| BurstPaths.L3fwdEmNoOptSendPackets | l3fwd/l3fwd_em.h:118-141 | the simple path of a burst is the fold of the one-packet function |
| MainLoop.PollQueues | l3fwd/l3fwd_em.c:719-748 | the RX loop is a run of the abstract lcore, leaves the bytes of the fast path in every packet, and makes its number of memory accesses for each non-empty burst, as one walk |
| MainLoop.EmMainLoopTurn | l3fwd/l3fwd_em.c:696-748 | a turn is a drain when more than drain_tsc cycles have passed, then the bursts, with the final bytes of every packet; the memory walk goes on where it stopped, by the given number of accesses for each non-empty burst |
| MainLoop.AccessCountIs | l3fwd/l3fwd_em.c:726-738 | the accesses of a turn are the number per burst times the number of non-empty bursts |
| MainLoop.TurnTouchesMemory | l3fwd/l3fwd_em.c:734-737 | a turn with a burst in it leaves its last write, and within a period its first, in the memory, and moves index and value on |
| OnesComplement.FoldIsResidue | pktgen/main.c:498 | the iterated fold is reduction modulo 0xffff with 0xffff for non-zero multiples |
| OnesComplement.VerifiesIsMultiple | pktgen/main.c:482-501 | a sum verifies if and only if it is a non-zero multiple of 0xffff |
| OnesComplement.StoredChecksumVerifiesIff | pktgen/main.c:596-606 | storing the computed checksum over a field f makes the sum verify if and only if f was 0, or 0xffff beside other non-zero data |
| OnesComplement.ChecksumIsNotNegativeZero | pktgen/main.c:504-512 | the checksum is 0xffff only for an all-zero sum |
| OnesComplement.TwoStepFoldIff | pktgen/main.c:509-510 | for up to 2^31 words the two-step fold is the full fold if and only if no carry is left |
| OnesComplement.TwoStepsSuffice | pktgen/main.c:509-510 | up to 65537 words no carry is left |
| OnesComplement.Csum | pktgen/main.c:504-512 | the loop computes the complement of the folded sum |
| OnesComplement.ComputeChecksumUdp | pktgen/main.c:482-502 | all loops end for every length and parity; the result is the complement of the folded sum of data and pseudo-header |
| OnesComplement.GeneratedChecksumVerifiesIff | pktgen/main.c:593-606 | the stored checksum makes data and pseudo-header verify under the exact condition on the old field |
| OnesComplement.HopChangesSum | l3fwd/l3fwd_common.h:67-68 | what one hop does to TTL, raw checksum and header sum |
| OnesComplement.SumAfterHops | l3fwd/l3fwd_common.h:67-68 | header sum after k hops: unchanged until the raw checksum wraps |
| OnesComplement.ChecksumSurvivesIff | l3fwd/l3fwd_common.h:67-68 | a header that verifies does so after k hops, k up to the TTL, if and only if raw checksum plus k is at most 0xffff (the corner of section 3 of RFC 1624) |
| OnesComplement.FreshChecksumSurvivesFirstHop | pktgen/main.c:606 | a checksum computed over a zero field verifies and survives the first hop |
| StridedWalk.IndexClosed | l3fwd/l3fwd_em.c:734-737 | closed form and bound of the index |
| StridedWalk.Bezout | l3fwd/l3fwd_em.c:734-737 | the gcd divides both numbers and is a combination of them |
| StridedWalk.SameCellIff | l3fwd/l3fwd_em.c:734-737 | two turns hit the same cell if and only if their distance is a multiple of size / gcd(stride, size) |
| StridedWalk.TouchedIsResidueClass | l3fwd/l3fwd_em.c:734-737 | from one period on exactly the cells congruent to the start modulo the gcd are touched |
| StridedWalk.TouchedCount | l3fwd/l3fwd_em.c:734-737 | within a period every turn touches a new cell |
| StridedWalk.AccessMemory | l3fwd/l3fwd_em.c:734-737 | contents, index and next value after a burst's accesses |
| StridedWalk.WalkContinues | l3fwd/l3fwd_em.c:669-672 | accesses made in several bursts form one walk |
| StridedWalk.WrittenLast | l3fwd/l3fwd_em.c:734-737 | after any number of turns a cell holds what the last turn that hit it has written |
| StridedWalk.WalkIsVisible | l3fwd/l3fwd_em.c:734-737 | the last turn is always visible, the first within a period |
| StridedWalk.WrittenOnce | l3fwd/l3fwd_em.c:734-737 | within a period no turn overwrites an earlier one |
| StridedWalk.WrittenElsewhere | l3fwd/l3fwd_em.c:734-737 | untouched cells keep their contents |
| StridedWalk.L3fwdWalkTouchesEveryByte | l3fwd/Makefile:50 | stride 15015 over 4194304 bytes has the full period and touches every byte |
| StridedWalk.ReflectWalkTouchesThousandCells | reflect/reflect.c:366-418 | stride 2^20 over 1000 * 2^20 touches exactly 1000 cells |
| FlowTables.EntryIsFlow | l3fwd/l3fwd_em.c:453-483 | entry i is the flow to 1.x or 3.x with x = i / 2 in 24 bits, to port i % 2 |
| FlowTables.SameKeyIff | l3fwd/l3fwd_em.c:453-484 | two turns make the same key if and only if their distance is a multiple of 2^25 |
| FlowTables.KeysDistinctIff | l3fwd/l3fwd_em.c:453-484 | n keys are pairwise distinct if and only if n is at most 2^25 |
| FlowTables.EmTable.HashAddKey | l3fwd/l3fwd_em.c:485 | the assumed behaviour of the hash: failure exactly if it refuses or has no free slot; otherwise a known key keeps its slot and a new one gets a free one |
| FlowTables.EmTable.PopulateIpv4Many | l3fwd/l3fwd_em.c:444-492 | success if and only if none of the adds is refused; then the table holds exactly the generated entries, each with its port |
| FlowTables.SlotsAfter | l3fwd/l3fwd_em.c:453-491 | after n accepted adds the keys of these turns are there, each once |
| FlowTables.AllAddedIff | l3fwd/l3fwd_em.c:484-488 | a hash that refuses only when full accepts n turns if and only if n is at most its size or its size exceeds 2^25 |
| FlowTables.PopulatedLookup | l3fwd/l3fwd_em.c:287-308 | closed form of every lookup of the fixed source and ports, for every n: port 0, port 1 or the incoming one |
| FlowTables.KeyInTableIff | l3fwd/l3fwd_em.c:444-492 | which flows are in the table |
| FlowTables.PatternIff | l3fwd/README.md:31-39 | the bit pattern of l3fwd/README.md is 1.x and 3.x with x below 2^(m-1) |
| FlowTables.KeysArePattern | l3fwd/README.md:31-39 | for 2^m entries the flows in the table are exactly the pattern's |
| LongestPrefix.LanesAreAddresses | l3fwd/l3fwd_lpm_sse.h:86-91 | after the shuffle each lane is the address in host order |
| LongestPrefix.FlagMeansAllIpv4 | l3fwd/l3fwd_lpm_sse.h:53-69 | the flag is set if and only if all four packets have an IPv4 header |
| LongestPrefix.LpmWideIsEach | l3fwd/l3fwd_lpm_sse.h:113-144 | every length and mix: the four-wide form equals one lookup per packet if all hops pack |
| LongestPrefix.LpmPortsGo | l3fwd/l3fwd_lpm_sse.h:113-144 | closed form of every entry for any types and hops: the next hop of the IPv4 or IPv6 destination address, saturated in whole IPv4 blocks and cut to 16 bits elsewhere, or the incoming port |
| LongestPrefix.LpmAlikeIff | l3fwd/l3fwd_lpm_sse.h:94-99 | it does so for all bursts if and only if every IPv4 next hop survives the saturating pack |
| LongestPrefix.GatherFours | l3fwd/l3fwd_lpm_sse.h:123-125 | the first loop gathers addresses and flags of every block |
| LongestPrefix.LookUpFours | l3fwd/l3fwd_lpm_sse.h:127-129 | the second loop fills dst_port block by block |
| LongestPrefix.LpmClassifyBurst | l3fwd/l3fwd_lpm_sse.h:113-144 | both loops and the tail fill dst_port with the result whose closed form is LpmPortsGo |
| QueueSetup.CheckLcoreParams | l3fwd/main.c:224-249 | success if and only if every queue id and lcore is allowed |
| QueueSetup.CheckPortConfig | l3fwd/main.c:318-336 | success if and only if every port is present and enabled, also where the shift count exceeds 31 |
| QueueSetup.GetPortNRxQueues | l3fwd/main.c:338-355 | it returns if and only if the ids are 0, 1, ... in sequence; the result is the count if and only if that is not 256 |
| QueueSetup.AtMost128Queues | l3fwd/main.c:231-236 | the earlier check excludes 256 |
| QueueSetup.RxConf.InitLcoreRxQueues | l3fwd/main.c:357-379 | success if and only if no lcore gets more than 16 queues; then the lists hold what was assigned |
| QueueSetup.QueueHasOneOwner | l3fwd/main.c:338-379 | queues 0..count-1 of a port, and no others, are each polled from exactly one place of exactly one lcore |
| QueueSetup.TxConf.SetupPort | l3fwd/main.c:1018-1050 | one port: success if and only if the device accepts every queue; then enabled lcores have consecutive queue ids and the port at the end of their list |
| QueueSetup.TxConf.InitTxQueues | l3fwd/main.c:968-1052 | all ports: success if and only if every used device accepts its configuration and queues; then lists are the used ports in order and queue ids the ranks |
| QueueSetup.TxQueuesIsCount | l3fwd/main.c:979-983 | a device is asked for one TX queue for each enabled lcore, up to 32 |
| QueueSetup.AtMost32Lcores | l3fwd/main.c:981-983 | with devices that refuse queues beyond the configured number the program starts with at most 32 enabled lcores |
| Lcores.RanksAreConsecutive | l3fwd/main.c:1019-1046 | the TX queue ids in use on a port are exactly 0, 1, ... up to the number of enabled lcores |
| Lcores.RankIsCount | l3fwd/main.c:1019-1046 | the rank of an lcore is the number of enabled ones before it |
| Lcores.RankIncreases | l3fwd/main.c:1019-1046 | they are distinct |
| QueueSetup.UsedPortsAre | l3fwd/main.c:969-974 | a port is listed if and only if it is present and enabled |
| QueueSetup.UsedPortsAscend | l3fwd/main.c:969-974 | the list is in ascending order, without repetition |
| Stranding.WidePortsReached | l3fwd/l3fwd_em_hlm.h:159-213 | the eight-wide form finds the incoming port or an enabled port that a table entry names |
| Stranding.FinalDstsReached | l3fwd/l3fwd_em_hlm.h:159-217 | so do the final destinations of the fast path, or they are BAD_PORT |
| Stranding.TurnsAreLoopEvents | l3fwd/l3fwd_em.c:696-748 | the turns of the main loop are runs of the kind considered here |
| Stranding.UsedPortsSuffice | l3fwd/l3fwd_em.c:700-717 | a drain leaves a port nothing after any run, if it is on the board or cannot be reached |
| Stranding.PacketOf4Fits | l3fwd/l3fwd_em.c:603-640 | every IPv4 flow has a packet with a good header, typed as the parser does |
| Stranding.PacketForPort | l3fwd/l3fwd_em_hlm.h:107-153 | every enabled port that a table entry names is the final destination of some packet |
| Stranding.AbsentPortStrands | l3fwd/l3fwd_em.c:700-717 | if that port is absent, a single such packet stays behind after the drain |
| Stranding.DrainsAllIff | l3fwd/main.c:1044-1049 | no run of the main loop leaves a packet behind if and only if no table entry names an enabled absent port, or no packet can come in |
| Stranding.GeneratedTableStrandsNothing | l3fwd/l3fwd_em.c:466-483 | with the generated IPv4 table nothing is stranded on two or more ports, whatever else the mask names |
| ReportBaton.AssignQueueIds | pktgen/main.c:426-435 | queue q belongs to the q-th enabled lcore, the rest hold -1 |
| ReportBaton.OthersWait | pktgen/main.c:917 | a core without the baton changes nothing |
| ReportBaton.HolderWorks | pktgen/main.c:917-919 | each access of the holder keeps the invariant and makes progress |
| ReportBaton.HolderHandsOff | pktgen/main.c:921 | the hand-off passes the baton to the next core with exact totals |
| ReportBaton.StepHeld | pktgen/main.c:917-921 | every step of every core keeps the protocol; the state changes if and only if the holder moves |
| ReportBaton.RunHeld | pktgen/main.c:917-921 | in every reachable state one core holds the baton or all have finished |
| ReportBaton.BatonIsExclusive | pktgen/main.c:917-921 | mutual exclusion and flags that form a prefix, for any number of cores and any interleaving |
| ReportBaton.TotalsAreExact | pktgen/main.c:918-919 | no update is lost: the totals are sum and maximum over the finished cores |
| ReportBaton.StepWorks | pktgen/main.c:917-921 | an access takes effect if and only if it is the next one of the remaining work |
| ReportBaton.FinishesIff | pktgen/main.c:917-921 | a schedule brings all cores to the end if and only if it contains the remaining accesses in order |
| ReportBaton.FairSchedulesFinish | pktgen/main.c:917-921 | after six rounds for each core, in which each gets at least one access, all have finished |
| ReportBaton.FinalTotals | pktgen/main.c:918-919 | when all have finished, the totals are sum and maximum over all cores |
| ReportBaton.TotalFitsIff | pktgen/main.c:900 | the 32-bit packet total is exact if and only if at most 63 cores report |

## Left out

- FlowTables.EmTable.HashAddKey: says what rte_hash is assumed to do; its buckets, hash functions and the order in which
  it hands out slots are not modelled.
- FlowTables.EmTable.PopulateIpv4Many: says nothing about the contents of the table after a refused add, where the program
  exits. The cases 111.x and 211.x of the switch cannot be reached with two ports.
- LongestPrefix.LpmClassifyBurst: covers classification; the main loop of the LPM mode and the route filtering of its
  set-up would add a second copy of easy loops. The options that l3fwd/README.md gives for that mode are not in `l3fwd_lpm.c`.
- MainLoop.EmMainLoopTurn: one turn of the endless loop, with what the NIC delivers as a parameter; further turns
  compose through Dispatch.RunConcat. The first index and value of the memory walk are parameters.
- ForwardingLoops.SendPacketsMulti: bursts have at most 32 packets, the size of its arrays; the grouping theorems cover
  every length up to 65535.
- QueueSetup.TxConf.InitTxQueues: what the devices answer is a parameter; memory, RX queues and link start-up are left out.
- Stranding.GeneratedTableStrandsNothing: takes the ports named by the IPv6 table as given, since its generation is left out.
- ReportBaton.TotalsAreExact: whether queue 0 prints the final totals depends on a sleep and is not claimed.
- ReportBaton.TotalFitsIff: for cores that send the configured 2^26 packets each.
- OnesComplement.GeneratedChecksumVerifiesIff: about the sums; the random fields that the generator fills in are
  arbitrary bytes, and the UDP rule for a zero checksum is not implemented by the code.
- Population of the IPv6 table and the tables of a few fixed flows: the same loop with other constants.
- TTL expiry, total length against header length: the code does not check them.
- The NEON and the non-vector variants, the older copy of the forwarder, prefetching, NUMA and cache locking, link
  status, signals, option parsing, printing and port statistics.
