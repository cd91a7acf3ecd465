# Quagga: Babel routing and BGP path algebra, verified

Dafny models of three parts of Quagga 0.99.24.1, with proofs about them.

**Babel routing** (`Seqno`, `BabelNode`, `BabelInvariants`, `BabelOperations`, `BabelRuns`,
`BabelNetwork`, `LoopFreedom`, `LoopWitness`, `RouteSlots`, `RouteTable`, `RequestWalk`,
`TokenBucket`).
`BabelNode` gives every operation of a router as a function on a value: chains of routes per
destination, sources with feasibility distances and reference counts, exported routes.
`BabelOperations` proves what every operation keeps and does, `BabelRuns` what holds in every
reachable state of a router. `BabelNetwork` puts any number of routers
together with all updates ever sent, and `LoopFreedom` proves that installed next hops never form a
cycle. `RouteTable` is the same router as an object: sorted slots, a list of sources, a list of
exported routes, and methods with the searches and walks of the code. Slots, chains and lists are
sequences in fields that the methods reassign, and each method is proved against the function of
`BabelNode`. The scope of loop freedom is the predicates `InScope` and `Anchored`: no source gone
stale, stored costs of at least 1, sequence numbers within a half window, and routes installed, or
moved to another source while installed, only with a finite metric. `LoopWitness` shows that the last
condition cannot be dropped.

**The Babel update codec** (`UpdateCodec`, `UpdateRoundTrip`, `UpdateBuffer`). Updates compressed
against state that sender and receiver share, in a bounded buffer that may be flushed at the start of
any message.

**BGP** (`AsPath`, `AsPathWire`, `AsPathWriter`, `AsPathPacking`, `AsPathMisread`, `AsPathHeads`,
`AsPathRoundTrip`, `AsPathSlip`, `AsPathReconcile`, `AsPathAggregate`, `AsPathText`, `Decision`,
`BestPath`, `DeterministicMed`, `Multipath`, `Community`, `CommunityText`). AS paths: normal form, wire
form, the writer with its bounded stream, which paths come back from the wire, reconciliation with
AS4_PATH, aggregation, text. The decision process, the scan that uses it, and deterministic MED. The
multipath chain, on linked objects. Community sets and their text.

`Wrappers`, `Seqs`, `Bytes`, `BabelMetric` and `BgpPeers` hold what several of these share.

Points where the code does something else than its comments or the protocol say; the model follows
the code:

- An unfeasible update of an installed route is recorded, although the comment in update_route and
  section 3.5.4 of RFC 6126 say that it is ignored when the source stays the same.
- find_best_route does not check the head of a chain (`BestIsMinimal`, `BestIsEligible`), so that a
  router can be left without a route although it has a feasible one (`LossOutcome`,
  `LossPassesOver`, `LossIsReachable`).
- A route of infinite metric can be installed (`LoopWithoutAnchoring`).
- aspath_put repeats the first 255 numbers of a segment with more than 510, and counts too many bytes
  for it (`CutMeaning`, `ReportedSizeExact`, `LongSequenceLost`).
- aspath_put packs touching AS_SEQUENCEs with a wrong length as soon as it packs two into one
  (`PackingExact`, `LengthByteExact`). A peer does not read such bytes right (`WrittenRoundTrip`),
  unless a segment of more than 510 numbers behind them makes up for it (`RoundTripExact`,
  `SlipsCancel`). Such paths do arise: aspath_filter_exclude (bgp_aspath.c:1308-1374) drops emptied
  segments and does not normalise.
- The comment in aspath_put expects a partial path when the stream is short of room; but the test
  before a segment counts neither further chunk headers nor packed segments, and a write without room
  aborts the daemon (`SafeForEveryRoom`, `TwoBytesShort`).
- community_delete of a set from itself leaves every second value (`DeletedFromItselfAlternates`).
- aspath_aggregate can lose AS numbers (`UnionExact`, `UnionFails`).
- community_str2com adds the last value twice, which sorting hides (`SetRoundTrip`).
- handle_request raises the sequence number for a request exactly half the number space away
  (`RaisedExactly`).
- The token bucket lets up to 400 packets pass within a second (`WindowBoundReached`).
- Without multipath-relax a path equal to the best can be missing from the multipath candidates
  (`EqualPathDropped`); `EqualPathsKept` says which ones are kept.
- With confederations, deterministic MED can still depend on the order of arrival (`ArrivalMatters`).

Numbers are unbounded unless the code relies on their width; 16-bit and 32-bit truncation is written
out where it does (sequence numbers on the wire, stored costs, AS number and community accumulators).
Clocks, filters, the verdict on martian prefixes, neighbour costs and the table of recent requests
are parameters.

`dafny verify dfyconfig.toml` checks the whole project.

## Model

| member | source | states |
|---|---|---|
| `AsPath.NormaliseCanonical` | quagga-0.99.24.1/bgpd/bgp_aspath.c:247-310 | two paths without empty segments get the same normal form exactly when they have the same meaning: adjacent AS_SEQUENCEs joined, sets read as sets |
| `AsPath.NormaliseKeepsMeaning` | quagga-0.99.24.1/bgpd/bgp_aspath.c:247-310 | normalising never changes what a path means, for every path |
| `AsPath.NormaliseIsNormal` | quagga-0.99.24.1/bgpd/bgp_aspath.c:247-310 | in the result no two AS_SEQUENCEs touch and set segments are strictly increasing, for every path; without empty segments it has none |
| `AsPath.NormalFormUnique` | quagga-0.99.24.1/bgpd/bgp_aspath.c:247-310 | two normal paths with the same meaning are equal |
| `AsPath.NormaliseFixedPoint` | quagga-0.99.24.1/bgpd/bgp_aspath.c:247-310 | every path: unchanged exactly when its sets are in order and its AS_SEQUENCEs joined; normalising twice is normalising once |
| `AsPath.CountsFromMeaning` | quagga-0.99.24.1/bgpd/bgp_aspath.c:403-437 | hop and confederation counts depend on the meaning only |
| `AsPath.NormaliseKeepsCounts` | quagga-0.99.24.1/bgpd/bgp_aspath.c:403-437 | normalising keeps both counts |
| `AsPath.CanonSetIsCanonical` | quagga-0.99.24.1/bgpd/bgp_aspath.c:264-284 | sorting a set and weeding duplicates lists exactly its members, strictly increasing |
| `AsPath.StrictListingUnique` | quagga-0.99.24.1/bgpd/bgp_aspath.c:264-284 | a set has only one such listing |
| `AsPath.Weed` | quagga-0.99.24.1/bgpd/bgp_aspath.c:271-283 | the in-place weeding of neighbours in the sorted array, against a function on sequences |
| `AsPath.SortAndWeed` | quagga-0.99.24.1/bgpd/bgp_aspath.c:264-284 | sorted in place, then weeded: the canonical listing |
| `AsPath.CanonicaliseSet` | quagga-0.99.24.1/bgpd/bgp_aspath.c:260-284 | one set segment becomes canonical, other segments are left alone |
| `AsPath.AbsorbSequences` | quagga-0.99.24.1/bgpd/bgp_aspath.c:286-305 | the inner loop that swallows following AS_SEQUENCE segments |
| `AsPath.NormaliseSegments` | quagga-0.99.24.1/bgpd/bgp_aspath.c:247-310 | the double loop over the segment list computes the normal form |
| `AsPathWire.WireRoundTrip` | quagga-0.99.24.1/bgpd/bgp_aspath.c:697-791 | for a normal path, parsing what was written gives the normal form of the (AS_TRANS-mapped) path, in both widths, exactly when every segment survives being cut into chunks |
| `AsPathWire.WideRoundTrip` | quagga-0.99.24.1/bgpd/bgp_aspath.c:867-938 | in the 4-byte form the very path comes back, under exactly that condition |
| `AsPathWire.TwoChunksWireable` | quagga-0.99.24.1/bgpd/bgp_aspath.c:893-900 | every AS_SEQUENCE of up to 510 numbers survives |
| `AsPathWire.DistinctWireable` | quagga-0.99.24.1/bgpd/bgp_aspath.c:893-900 | one whose numbers are all different survives if and only if it has at most 510 |
| `AsPathWire.LongSequenceLost` | quagga-0.99.24.1/bgpd/bgp_aspath.c:893-900 | 511 different numbers: the path does not come back, and the bytes of 255 numbers too many are reported |
| `AsPathWire.PlainRoundTrip` | quagga-0.99.24.1/bgpd/bgp_aspath.c:697-791 | the same for every path without empty segments whose segments are written one by one |
| `AsPathWire.CutMeaning` | quagga-0.99.24.1/bgpd/bgp_aspath.c:893-905 | one segment keeps its meaning through the cut exactly when it has at most 255 numbers, or is an AS_SEQUENCE whose full chunks all repeat the first |
| `AsPathWire.ReportedSizeExact` | quagga-0.99.24.1/bgpd/bgp_aspath.c:868-938 | for every path, what is packed included, the returned byte count is never too small, and is exact if and only if no segment has more than 510 numbers |
| `AsPathWire.ReportedHeadExcess` | quagga-0.99.24.1/bgpd/bgp_aspath.c:893-934 | the same for one segment and what is packed into it |
| `AsPathWriter.StreamPut` | quagga-0.99.24.1/lib/stream.c:528-578 | a write aborts the daemon exactly if the stream has no room for it |
| `AsPathWriter.WriteData` | quagga-0.99.24.1/bgpd/bgp_aspath.c:837-853 | number by number; aborts exactly if they do not all fit |
| `AsPathWriter.WriteChunk` | quagga-0.99.24.1/bgpd/bgp_aspath.c:855-864 | header and data of one chunk; aborts exactly if they do not fit |
| `AsPathWriter.WriteSegment` | quagga-0.99.24.1/bgpd/bgp_aspath.c:888-905 | the loop that cuts an overlong segment: all its chunks and the last part, or an abort exactly if they do not fit |
| `AsPathWriter.PackFollowing` | quagga-0.99.24.1/bgpd/bgp_aspath.c:907-930 | the loop that packs following AS_SEQUENCEs appends their numbers and patches the length byte with the last one only, or aborts exactly if they do not fit |
| `AsPathWriter.WriteHead` | quagga-0.99.24.1/bgpd/bgp_aspath.c:884-935 | one round of the writer: chunks, packed segments, reported size, or an abort exactly if they do not fit |
| `AsPathWriter.WritePath` | quagga-0.99.24.1/bgpd/bgp_aspath.c:867-938 | the whole writer for every path and every room: it aborts if and only if some segment is begun that does not fit with what it is cut into and what is packed into it, and says where; otherwise what was begun is written and counted as it should be, and the first segment left does not pass the test; it never aborts if the whole path fits, or if nothing is cut or packed |
| `AsPathWriter.SafeForEveryRoom` | quagga-0.99.24.1/bgpd/bgp_aspath.c:884 | for paths without empty segments, the test before a segment is begun prevents the abort for every room if and only if no segment has more than 255 numbers and none can be packed into the one before it |
| `AsPathWriter.RoomSuffices` | quagga-0.99.24.1/bgpd/bgp_aspath.c:884 | room for the whole path is enough |
| `AsPathWriter.TwoBytesShort` | quagga-0.99.24.1/bgpd/bgp_aspath.c:884-900 | 256 numbers in one segment, with as much room as is tested for, abort: two bytes are missing |
| `AsPathWire.NothingPacked` | quagga-0.99.24.1/bgpd/bgp_aspath.c:907-930 | on paths without touching AS_SEQUENCEs, in particular normal ones, packing never happens |
| `AsPathPacking.PackingExact` | quagga-0.99.24.1/bgpd/bgp_aspath.c:907-930 | for every path without empty segments, what is written is the joined path if and only if no segment takes in more than one of those behind it |
| `AsPathPacking.HeadExact` | quagga-0.99.24.1/bgpd/bgp_aspath.c:884-930 | the same for one segment and those behind it |
| `AsPathPacking.LengthByteExact` | quagga-0.99.24.1/bgpd/bgp_aspath.c:911-928 | the length byte counts the numbers behind it if and only if at most one segment was packed |
| `AsPathPacking.PackedMeaning` | quagga-0.99.24.1/bgpd/bgp_aspath.c:907-930 | joining what is packed keeps the meaning of a path |
| `AsPathPacking.PackedRoundTrip` | quagga-0.99.24.1/bgpd/bgp_aspath.c:867-938 | where at most one is packed each time, the peer parses the normal form of the wire path if and only if every packed segment survives being cut |
| `AsPathMisread.NeverAgrees` | quagga-0.99.24.1/bgpd/bgp_aspath.c:718-789 | a parser that took an uncounted number for a segment header runs ahead of the writer and does not get to the end of the AS_SEQUENCEs together with it, whatever follows these |
| `AsPathMisread.ReadAsMeant` | quagga-0.99.24.1/bgpd/bgp_aspath.c:718-789 | bytes whose length bytes may count too little, up to bytes that do not go on with an AS_SEQUENCE, are parsed as they were meant if and only if every length byte is right and the rest is parsed so on its own, in either width |
| `AsPathRoundTrip.RoundTripExact` | quagga-0.99.24.1/bgpd/bgp_aspath.c:867-938 | for every path without empty segments: the peer parses the normal form of the wire path if no segment takes in more than one other and every segment survives being cut; if it does, both are so or neither is; and it does if and only if both are so, unless the first segment that takes in more than one comes after segments that survive and before one that does not, with AS_SEQUENCEs only in between |
| `AsPathRoundTrip.NeverBack` | quagga-0.99.24.1/bgpd/bgp_aspath.c:867-938 | outside that exception a path with a wrong length byte is not read as it was meant |
| `AsPathRoundTrip.WrittenRoundTrip` | quagga-0.99.24.1/bgpd/bgp_aspath.c:867-938 | a path whose segments all survive being cut comes back if and only if no segment takes in more than one of those behind it |
| `AsPathSlip.SlipsCancel` | quagga-0.99.24.1/bgpd/bgp_aspath.c:867-938 | the exception is real, in both widths: three segments packed into one and a long segment sent in three chunks, with the right number at three places and any others elsewhere, come back exactly, whatever path that comes back follows |
| `AsPathPacking.PackTwoBreaks` | quagga-0.99.24.1/bgpd/bgp_aspath.c:911-928 | three segments of one number each, whatever the numbers, give bytes that do not parse |
| `AsPathWire.ReadData` | quagga-0.99.24.1/bgpd/bgp_aspath.c:777-778 | the numbers of one segment, read in order |
| `AsPathWire.ReadPath` | quagga-0.99.24.1/bgpd/bgp_aspath.c:697-791 | the parser with its length checks and error returns, against a recursive definition |
| `AsPathWire.DataRoundTrip` | quagga-0.99.24.1/bgpd/bgp_aspath.c:837-853 | numbers written are read back, AS_TRANS standing for what does not fit |
| `AsPathReconcile.As4Recovery` | quagga-0.99.24.1/bgpd/bgp_aspath.c:1464-1558 | for every normal path without confederation segments, and every list of segments prepended by 2-byte speakers: reconciling gives the normal form of the true path if and only if all prepended numbers fit 16 bits |
| `AsPathReconcile.As4RecoveryOnTheWire` | quagga-0.99.24.1/bgpd/bgp_aspath.c:1464-1558 | the same if and only if, from the bytes of AS_PATH and AS4_PATH |
| `AsPathReconcile.JoinedOnTheWay` | quagga-0.99.24.1/bgpd/bgp_aspath.c:837-853 | what 2-byte speakers build by prepending to what they pass on is the path taken to be received |
| `AsPathReconcile.MeaningOnTheWire` | quagga-0.99.24.1/bgpd/bgp_aspath.c:837-853 | substitution of AS_TRANS acts on the meaning item by item |
| `AsPathReconcile.TakeHopsMeaning` | quagga-0.99.24.1/bgpd/bgp_aspath.c:1498-1542 | copying hops from the front keeps exactly that many steps of the meaning |
| `AsPathReconcile.WireMeaning` | quagga-0.99.24.1/bgpd/bgp_aspath.c:837-853 | where AS_TRANS substitution changes the meaning of a path, and where not |
| `AsPathReconcile.CountLoop` | quagga-0.99.24.1/bgpd/bgp_aspath.c:403-437 | the counting loops |
| `AsPathReconcile.CopyHops` | quagga-0.99.24.1/bgpd/bgp_aspath.c:1498-1542 | the copying loop |
| `AsPathReconcile.ReconcileAs4` | quagga-0.99.24.1/bgpd/bgp_aspath.c:1464-1558 | the whole function with its three outcomes |
| `AsPathAggregate.AggregateCommutative` | quagga-0.99.24.1/bgpd/bgp_aspath.c:1008-1092 | aggregation does not depend on the order of its arguments |
| `AsPathAggregate.LeadIsCommonPrefix` | quagga-0.99.24.1/bgpd/bgp_aspath.c:1026-1063 | the leading part, segment types included, is a prefix of both inputs |
| `AsPathAggregate.UnionExact` | quagga-0.99.24.1/bgpd/bgp_aspath.c:1008-1092 | the aggregate carries all AS numbers of both inputs if and only if, in case the inputs share some first segments and then one ends or the types differ, the numbers passed over there occur in the shared part or further on |
| `AsPathAggregate.WalkStopsAt` | quagga-0.99.24.1/bgpd/bgp_aspath.c:1026-1063 | there the walk stops with the length of the last shared segment as its offset |
| `AsPathAggregate.AggregateAsns` | quagga-0.99.24.1/bgpd/bgp_aspath.c:1066-1089 | which AS numbers the aggregate carries, and which were passed over |
| `AsPathAggregate.UnionSufficient` | quagga-0.99.24.1/bgpd/bgp_aspath.c:1057-1087 | they are, when the walk stops inside a segment, on the first segments, or with both paths used up |
| `AsPathAggregate.UnionFails` | quagga-0.99.24.1/bgpd/bgp_aspath.c:1068-1087 | an input where the stale offset loses a number |
| `AsPathAggregate.WalkAccountsForAll` | quagga-0.99.24.1/bgpd/bgp_aspath.c:1026-1063 | the walk splits both inputs without losing a number |
| `AsPathAggregate.FindMatch` | quagga-0.99.24.1/bgpd/bgp_aspath.c:1033-1038 | the length of the common start of two segments |
| `AsPathAggregate.WalkCommon` | quagga-0.99.24.1/bgpd/bgp_aspath.c:1026-1063 | the walk over both segment lists |
| `AsPathAggregate.AddAll` | quagga-0.99.24.1/bgpd/bgp_aspath.c:967-1005 | adding numbers to the set segment, each once |
| `AsPathAggregate.GatherRest` | quagga-0.99.24.1/bgpd/bgp_aspath.c:1068-1087 | the set segment gathered from both rests |
| `AsPathAggregate.AggregatePaths` | quagga-0.99.24.1/bgpd/bgp_aspath.c:1008-1092 | the whole function |
| `AsPathText.TextRoundTrip` | quagga-0.99.24.1/bgpd/bgp_aspath.c:1766-1830 | for every path, what is read back from its text; it is the path itself exactly when no AS_SEQUENCE is empty or follows another |
| `AsPathText.ReadToken` | quagga-0.99.24.1/bgpd/bgp_aspath.c:1701-1764 | the tokenizer, 32-bit wrap-around of the accumulator included |
| `AsPathText.ParseString` | quagga-0.99.24.1/bgpd/bgp_aspath.c:1766-1830 | the parser loop, which gives up at an unknown token |
| `AsPathText.PrintList` | quagga-0.99.24.1/bgpd/bgp_aspath.c:589-596 | the numbers of a segment never exceed the room reserved for them |
| `AsPathText.PrintSegment` | quagga-0.99.24.1/bgpd/bgp_aspath.c:584-602 | a segment with its delimiters and the following space fits |
| `AsPathText.PrintPath` | quagga-0.99.24.1/bgpd/bgp_aspath.c:510-614 | the printer grows its buffer in time: nothing is cut off and the final assertion holds, for every path |
| `Decision.DecisionIsKeyOrder` | quagga-0.99.24.1/bgpd/bgp_common.c:51-290 | with always-compare-med, and paths from different EBGP, IBGP or confederation peers of which at most one is selected: bgp_info_cmp is the lexicographic order of one key for every setting of the other flags, and paths_eq is what it says |
| `Decision.DecisionIsTotalOrder` | quagga-0.99.24.1/bgpd/bgp_common.c:51-290 | so it is a strict total order |
| `Decision.ClassOrder` | quagga-0.99.24.1/bgpd/bgp_common.c:87-204 | steps 1 to 8 are the lexicographic order of a key |
| `Decision.BreakOrder` | quagga-0.99.24.1/bgpd/bgp_common.c:239-289 | so are steps 10 to 13 |
| `Decision.AddressOrder` | quagga-0.99.24.1/lib/sockunion.c:727-749 | sockunion_cmp is a total order of addresses |
| `Decision.In6AddrCmp` | quagga-0.99.24.1/lib/sockunion.c:707-724 | the octet loop, against the lexicographic order |
| `BestPath.BestSelection` | quagga-0.99.24.1/bgpd/bgp_route.c:1394-1438 | the scan over all paths of a prefix that are not held down, for the best path and, if multipath is on, the candidates (without deterministic MED) |
| `BestPath.ScanFindsBest` | quagga-0.99.24.1/bgpd/bgp_route.c:1394-1438 | among paths that are totally ordered, as they are with always-compare-med, the one it ends with beats every other |
| `BestPath.ComparedIsOrdered` | quagga-0.99.24.1/bgpd/bgp_common.c:51-290 | with always-compare-med paths from different peers are totally ordered |
| `BestPath.SelectionIgnoresOrder` | quagga-0.99.24.1/bgpd/bgp_route.c:1394-1438 | the same path is selected in whatever order the paths arrived |
| `BestPath.CandidatesAreEqualCost` | quagga-0.99.24.1/bgpd/bgp_route.c:1420-1437 | with multipath-relax the candidates are exactly the paths that tie with the best up to the IGP metric, each once |
| `BestPath.KeptSinceReplaced` | quagga-0.99.24.1/bgpd/bgp_route.c:1420-1437 | for every list and configuration: kept are the last path that replaced a best path not equal to it, and those after it that were equal to the best in their turn |
| `BestPath.EqualPathsKept` | quagga-0.99.24.1/bgpd/bgp_route.c:1420-1437 | with always-compare-med and IBGP and confederation peers not mixed: of the paths equal to the best, exactly those from that one on are kept |
| `BestPath.EqualPathDropped` | quagga-0.99.24.1/bgpd/bgp_route.c:1420-1437 | without multipath-relax this can leave out a path equal to the best |
| `DeterministicMed.FindGroup` | quagga-0.99.24.1/bgpd/bgp_route.c:1349-1378 | the loop that puts paths of one neighbouring AS together and finds their best |
| `DeterministicMed.MarkGroups` | quagga-0.99.24.1/bgpd/bgp_route.c:1337-1384 | the loop over groups and its two flags |
| `DeterministicMed.DeterministicSelection` | quagga-0.99.24.1/bgpd/bgp_route.c:1334-1438 | the whole selection; both flags are clear again afterwards |
| `DeterministicMed.ChosenAreChampions` | quagga-0.99.24.1/bgpd/bgp_route.c:1337-1384 | the flag is set exactly on the paths that beat all others of their neighbouring AS |
| `DeterministicMed.SelectsWinner` | quagga-0.99.24.1/bgpd/bgp_route.c:1334-1438 | selected is the one of these that beats the others of these, and nothing only if all paths are held down |
| `DeterministicMed.SelectionIgnoresArrival` | quagga-0.99.24.1/bgpd/bgp_route.c:1334-1438 | deterministic MED selects the same path in whatever order the paths arrived, if exactly paths of one neighbouring AS have their MEDs compared and being of one neighbouring AS carries over |
| `DeterministicMed.ExternalGrouped` | quagga-0.99.24.1/bgpd/bgp_aspath.c:1426-1456 | this is so for all paths that begin with the AS number of a neighbour |
| `DeterministicMed.SelectsBest` | quagga-0.99.24.1/bgpd/bgp_route.c:1334-1438 | with always-compare-med the option changes nothing: the path that beats all others is selected |
| `DeterministicMed.ArrivalMatters` | quagga-0.99.24.1/bgpd/bgp_route.c:1358-1377 | with confederations it need not be so, and then the order of arrival decides in spite of the option |
| `BestPath.MedCycle` | quagga-0.99.24.1/bgpd/bgp_common.c:158-180 | without always-compare-med three paths can beat each other in a circle, and arrival order decides |
| `Multipath.Update` | quagga-0.99.24.1/bgpd/bgp_mpath.c:396-552 | whatever the old chain, the new best path ends with the greedy pick as its chain, its count is the length, the flag is set exactly on the members and no link is left behind; without the change flag the chain is the old one, and on sorted lists the flag is raised exactly on a change |
| `Multipath.Walk` | quagga-0.99.24.1/bgpd/bgp_mpath.c:446-544 | the merge walk over old chain and candidate list |
| `Multipath.StepBoth` | quagga-0.99.24.1/bgpd/bgp_mpath.c:459-487 | the next path is on both lists |
| `Multipath.StepPurge` | quagga-0.99.24.1/bgpd/bgp_mpath.c:489-508 | the next path is only on the old chain |
| `Multipath.StepCandidate` | quagga-0.99.24.1/bgpd/bgp_mpath.c:509-543 | the next path is only a candidate; an old place further on is given up |
| `Multipath.DetachNewBest` | quagga-0.99.24.1/bgpd/bgp_mpath.c:418-425 | the new best path leaves the old chain |
| `Multipath.ReleaseOldBest` | quagga-0.99.24.1/bgpd/bgp_mpath.c:427-433 | the old best path lets its chain go |
| `Multipath.PurgeAll` | quagga-0.99.24.1/bgpd/bgp_mpath.c:489-508 | with no best path the old chain is dissolved |
| `Multipath.Record` | quagga-0.99.24.1/bgpd/bgp_mpath.c:546-551 | count and change flag |
| `Multipath.Enqueue` | quagga-0.99.24.1/bgpd/bgp_mpath.c:266-288 | insertion behind a path of a doubly linked chain |
| `Multipath.Dequeue` | quagga-0.99.24.1/bgpd/bgp_mpath.c:290-302 | removal from any place of a chain |
| `Multipath.GreedyFromList` | quagga-0.99.24.1/bgpd/bgp_mpath.c:467-541 | picks are candidates other than the best path, at most maxpaths - 1 |
| `Multipath.GreedyAlternates` | quagga-0.99.24.1/bgpd/bgp_mpath.c:467-541 | each pick has a next hop different from the one before it |
| `Multipath.MpathCmpAntisymmetric` | quagga-0.99.24.1/bgpd/bgp_mpath.c:155-169 | the order of the candidate list is antisymmetric |
| `Community.CanonicalForm` | quagga-0.99.24.1/bgpd/bgp_community.c:161-185 | the sorted form of two lists is the same exactly when they hold the same values; a list is its own sorted form exactly when it is strictly increasing |
| `Community.UniqSorted` | quagga-0.99.24.1/bgpd/bgp_community.c:161-185 | dropping duplicates before sorting gives that form |
| `Community.Communities.UniqSort` | quagga-0.99.24.1/bgpd/bgp_community.c:161-185 | the loop with its membership test, in a new object |
| `Community.Communities.Include` | quagga-0.99.24.1/bgpd/bgp_community.c:133-145 | the membership loop |
| `Community.MatchIsSubset` | quagga-0.99.24.1/bgpd/bgp_community.c:413-440 | on strictly increasing lists the single walk decides inclusion of sets |
| `Community.Match` | quagga-0.99.24.1/bgpd/bgp_community.c:413-440 | the walk with its null and size checks decides whether one list is a subsequence of the other |
| `Community.DeletedCounts` | quagga-0.99.24.1/bgpd/bgp_community.c:65-112 | for all lists, deletion is difference of multisets |
| `Community.DeletedIsDifference` | quagga-0.99.24.1/bgpd/bgp_community.c:65-112 | on lists without duplicates it is set difference and keeps the order |
| `Community.DeletedFromItselfAlternates` | quagga-0.99.24.1/bgpd/bgp_community.c:99-112 | a list without duplicates deleted from itself keeps every second value |
| `Community.DeletedFromItselfEmpties` | quagga-0.99.24.1/bgpd/bgp_community.c:99-112 | so it is emptied if and only if it had one value at most |
| `Community.Communities.DelVal` | quagga-0.99.24.1/bgpd/bgp_community.c:65-97 | only the first occurrence goes |
| `Community.Communities.Delete` | quagga-0.99.24.1/bgpd/bgp_community.c:99-112 | the loop, with both readings of its result; and what it does when both arguments are the same object |
| `Community.Communities.AddVal` | quagga-0.99.24.1/bgpd/bgp_community.c:50-63 | a value is added at the end |
| `Community.Communities.Merge` | quagga-0.99.24.1/bgpd/bgp_community.c:458-472 | the other list is added at the end, even if it is the same object |
| `CommunityText.SetRoundTrip` | quagga-0.99.24.1/bgpd/bgp_community.c:582-620 | for every list, reading back its text gives its sorted form, although the last value is added twice; the list itself exactly when it is non-empty and strictly increasing |
| `CommunityText.TextFits` | quagga-0.99.24.1/bgpd/bgp_community.c:219-250 | the text and its NUL fit the space computed for them |
| `CommunityText.Com2Str` | quagga-0.99.24.1/bgpd/bgp_community.c:197-293 | the two passes; the buffer is never overrun |
| `CommunityText.ReservedLength` | quagga-0.99.24.1/bgpd/bgp_community.c:222-247 | the first pass |
| `CommunityText.Str2Com` | quagga-0.99.24.1/bgpd/bgp_community.c:582-620 | the reading loop, stale token and failures included |
| `CommunityText.ReadPrinted` | quagga-0.99.24.1/bgpd/bgp_community.c:484-579 | the tokenizer reads back any printed value and stops at the next space |
| `Seqno.CompareAntisymmetric` | quagga-0.99.24.1/babeld/util.h:69-76 | the comparison is antisymmetric exactly for numbers that are not half the number space apart |
| `Seqno.WireCompare` | quagga-0.99.24.1/babeld/util.h:69-76 | on counters less than 2^15 apart it is the comparison of the counters |
| `Seqno.WirePlus` | quagga-0.99.24.1/babeld/util.h:84-88 | adding on the wire is adding to the counter |
| `BabelInvariants.BestIsMinimal` | quagga-0.99.24.1/babeld/route.c:585-607 | find_best_route gives the first of the eligible routes with least metric, except that the head of the chain is taken unchecked unless an eligible route is better |
| `BabelInvariants.BestIsEligible` | quagga-0.99.24.1/babeld/route.c:585-607 | its result is eligible if and only if the head is, or an eligible route is better than the head |
| `BabelInvariants.ConsideredReselects` | quagga-0.99.24.1/babeld/route.c:820-860 | consider_route only reorders a chain: same routes, same counts, one installed route at the head at most, and what is newly installed is feasible and not kept out by an exported route |
| `BabelInvariants.AfterChangeReselects` | quagga-0.99.24.1/babeld/route.c:943-966 | so does route_changed |
| `BabelInvariants.AfterLossReselects` | quagga-0.99.24.1/babeld/route.c:968-983 | so does route_lost |
| `BabelInvariants.ConsideredOutcome` | quagga-0.99.24.1/babeld/route.c:820-860 | consider_route never leaves without a route a destination that had one; where none was installed it installs exactly a feasible route that is not kept out; it replaces a finite route only by one better by 64 at least |
| `BabelInvariants.ChangeOutcome` | quagga-0.99.24.1/babeld/route.c:943-966 | after the installed route got worse, no feasible unexpired route is better than the installed one by 96 or more |
| `BabelInvariants.LossOutcome` | quagga-0.99.24.1/babeld/route.c:968-983 | after a loss a route is installed if and only if the head is feasible or an eligible route is better than the head, and no exported route keeps it out |
| `BabelInvariants.LossPassesOver` | quagga-0.99.24.1/babeld/route.c:968-983 | a router in a consistent state that loses its route and installs none, although it has a feasible unexpired one |
| `BabelOperations.KnownRecorded` | quagga-0.99.24.1/babeld/route.c:712-745 | of the routes to the destination exactly the one from that neighbour and next hop is replaced by what the update says; its age is kept on unfeasible updates and retractions |
| `BabelOperations.NewRecorded` | quagga-0.99.24.1/babeld/route.c:746-793 | exactly the announced route is added, or nothing if it is a retraction, or unfeasible and such routes are not kept |
| `BabelOperations.OtherChains` | quagga-0.99.24.1/babeld/route.c:670-795 | routes to other destinations are left alone |
| `BabelOperations.UpdateRouteKeeps` | quagga-0.99.24.1/babeld/route.c:670-795 | update_route keeps the whole invariant of a router (non-empty chains of one destination, installed route at the head only, exact source counts, no exported and installed route together when duplicates are forbidden); it keeps feasibility distances, and new facts come from the update or from old routes |
| `BabelOperations.UpdateKnownKeeps` | quagga-0.99.24.1/babeld/route.c:712-745 | the case of a known route, recorded although unfeasible |
| `BabelOperations.UpdateNewKeeps` | quagga-0.99.24.1/babeld/route.c:746-793 | the case of a new route |
| `BabelOperations.FlushRouteKeeps` | quagga-0.99.24.1/babeld/route.c:211-260 | flush_route keeps it too |
| `BabelOperations.UpdateRouteMetricKeeps` | quagga-0.99.24.1/babeld/route.c:609-632 | so does update_route_metric |
| `BabelOperations.RetractRouteKeeps` | quagga-0.99.24.1/babeld/route.c:862-882 | so does the retraction of a route |
| `BabelOperations.AddXrouteInv` | quagga-0.99.24.1/babeld/xroute.c:212-237 | exporting a route keeps it, exclusion of installed routes included |
| `BabelOperations.AddXrouteStep` | quagga-0.99.24.1/babeld/xroute.c:212-237 | and changes no route but for its installed flag |
| `BabelOperations.FlushXrouteKeeps` | quagga-0.99.24.1/babeld/xroute.c:134-159 | so does withdrawing an exported route |
| `BabelOperations.AdvertiseInv` | quagga-0.99.24.1/babeld/message.c:1001-1060 | so does sending an update |
| `BabelOperations.ExpireSourcesInv` | quagga-0.99.24.1/babeld/source.c:148-166 | expiry keeps it, and never takes a source that a route uses |
| `BabelRuns.LossIsReachable` | quagga-0.99.24.1/babeld/route.c:968-983 | a router with empty tables comes to that state by receiving three updates and sending one, and is then left without a route |
| `BabelRuns.OperationKeeps` | quagga-0.99.24.1/babeld/route.c:178-983 | every operation of a router keeps its invariant |
| `BabelRuns.ReachableInv` | quagga-0.99.24.1/babeld/route.c:178-983 | so it holds in every state a router can reach, with no assumption on clocks, costs or sequence numbers |
| `BabelRuns.NeverBoth` | quagga-0.99.24.1/babeld/xroute.c:162-237 | with allow_duplicates negative no reachable state has an exported and an installed route for the same destination |
| `BabelRuns.CountsAlwaysExact` | quagga-0.99.24.1/babeld/source.c:53-126 | in every reachable state each source counts exactly the routes that point to it, and no route has lost its source |
| `BabelNetwork.UpdatedSourceIsMin` | quagga-0.99.24.1/babeld/source.c:128-146 | inside the half window update_source keeps the better of two distances |
| `BabelNetwork.FeasibleIsBetter` | quagga-0.99.24.1/babeld/route.c:565-582 | a feasible finite update is strictly better than the distance kept |
| `BabelNetwork.AdvertisedIsWorse` | quagga-0.99.24.1/babeld/message.c:1011-1054 | what is sent is no better than the distance kept afterwards |
| `BabelNetwork.AdvertiseKeeps` | quagga-0.99.24.1/babeld/message.c:1001-1060 | sending keeps the network invariant |
| `BabelNetwork.LocalStepKeeps` | quagga-0.99.24.1/babeld/route.c:670-860 | every other step of a router keeps it |
| `BabelNetwork.StepKeeps` | quagga-0.99.24.1/babeld/route.c:566-860 | every step of the network keeps it: next hops are sources or strictly closer, updates in flight are no better than the sender's distance |
| `LoopFreedom.RunInv` | quagga-0.99.24.1/babeld/route.c:566-860 | so it holds at every moment of every run |
| `LoopFreedom.NextHopCloser` | quagga-0.99.24.1/babeld/route.c:822-860 | an installed route of A through B means B is the source, or B's feasibility distance is strictly better than A's |
| `LoopFreedom.LoopFree` | quagga-0.99.24.1/babeld/route.c:822-860 | main result: in every run of any number of routers, with updates delivered late, repeatedly or never, installed next hops towards a source never form a cycle |
| `LoopWitness.LoopWithoutAnchoring` | quagga-0.99.24.1/babeld/route.c:839-843 | a run with all other conditions met, in which a route of infinite metric is installed, ends in a loop of two routers with finite metrics |
| `RouteTable.Table.FindRouteSlot` | quagga-0.99.24.1/babeld/route.c:87-116 | binary search: finds a slot exactly when the destination has one; on a miss gives the only place where it belongs |
| `RouteSlots.InsertShown` | quagga-0.99.24.1/babeld/route.c:188-199 | inserting a slot there keeps the array strictly sorted and adds just that chain |
| `RouteSlots.RemoveShown` | quagga-0.99.24.1/babeld/route.c:235-241 | removing a slot keeps the rest |
| `RouteSlots.ReplaceSlot` | quagga-0.99.24.1/babeld/route.c:361-375 | replacing a chain by one to the same destination |
| `RouteTable.Table.FindRouteIn` | quagga-0.99.24.1/babeld/route.c:118-137 | the search within a chain |
| `RouteTable.Table.FindInstalledRoute` | quagga-0.99.24.1/babeld/route.c:139-148 | the installed route of a destination, if any |
| `RouteTable.Table.IsFeasible` | quagga-0.99.24.1/babeld/route.c:565-582 | the feasibility test against the source list |
| `RouteTable.Table.FindBest` | quagga-0.99.24.1/babeld/route.c:585-607 | the loop of find_best_route |
| `RouteTable.Table.FindSource` | quagga-0.99.24.1/babeld/source.c:53-69 | the search through the source list agrees with a lookup |
| `RouteTable.Table.EnsureSource` | quagga-0.99.24.1/babeld/source.c:53-90 | sources stay unique per router id and destination |
| `RouteTable.Table.Retain` | quagga-0.99.24.1/babeld/source.c:92-105 | counting references |
| `RouteTable.Table.UpdateSource` | quagga-0.99.24.1/babeld/source.c:128-146 | the new feasibility distance |
| `RouteTable.Table.ExpireSources` | quagga-0.99.24.1/babeld/source.c:148-166 | the walk that unlinks sources in place removes exactly those that are old and unused |
| `RouteTable.Table.InsertRoute` | quagga-0.99.24.1/babeld/route.c:178-208 | a new slot or the end of a chain |
| `RouteTable.Table.ConsiderRoute` | quagga-0.99.24.1/babeld/route.c:820-860 | keeps table and specification in step; other slots are untouched |
| `RouteTable.Table.RouteChanged` | quagga-0.99.24.1/babeld/route.c:943-966 | the same for route_changed |
| `RouteTable.Table.RouteLost` | quagga-0.99.24.1/babeld/route.c:968-983 | the same for route_lost; the number of routes stays |
| `RouteTable.Table.RecordUpdate` | quagga-0.99.24.1/babeld/route.c:712-738 | the fields written one by one, and whether the route was uninstalled |
| `RouteTable.Table.UpdateRoute` | quagga-0.99.24.1/babeld/route.c:670-795 | the whole operation on the stored table keeps it valid and does what the specification says |
| `RouteTable.Table.FlushRoute` | quagga-0.99.24.1/babeld/route.c:211-260 | the same for flush_route, which takes away one route |
| `RouteTable.Table.FlushMatching` | quagga-0.99.24.1/babeld/route.c:282-325 | flush_neighbour_routes and flush_interface_routes end; no matching route is left and every other route is, as often as before, although each flush may reorder the chain being walked |
| `RouteTable.FlushTakesOne` | quagga-0.99.24.1/babeld/route.c:211-260 | one flush takes exactly one route from one chain, whatever is reinstalled |
| `RouteTable.Table.UpdateRouteMetric` | quagga-0.99.24.1/babeld/route.c:609-632 | expired routes are retracted, others refreshed |
| `RouteTable.Table.RetractRoute` | quagga-0.99.24.1/babeld/route.c:867-878 | the body of retract_neighbour_routes |
| `RouteTable.Table.FindXroute` | quagga-0.99.24.1/babeld/xroute.c:122-132 | the search through the exported routes agrees with a lookup |
| `RouteTable.Table.SetXroute` | quagga-0.99.24.1/babeld/xroute.c:162-194 | an exported route is added or improved |
| `RouteTable.Table.AddXroute` | quagga-0.99.24.1/babeld/xroute.c:212-237 | with the uninstallation of a Babel route to the same destination |
| `RouteTable.Table.FlushXroute` | quagga-0.99.24.1/babeld/xroute.c:134-159 | the last entry takes the free place; the set of exported routes loses just one |
| `RouteTable.Table.Advertise` | quagga-0.99.24.1/babeld/message.c:1001-1060 | what is sent for a destination, and the distance kept for it |
| `RouteTable.Table.FindSuccessor` | quagga-0.99.24.1/babeld/message.c:1539-1555 | the choice of the neighbour to ask |
| `RouteTable.Table.HandleRequest` | quagga-0.99.24.1/babeld/message.c:1494-1561 | the whole handler on the stored table |
| `RequestWalk.HandlingFacts` | quagga-0.99.24.1/babeld/message.c:1494-1561 | a request is forwarded to one neighbour at most, never back, with one hop less, along a route of finite metric; or it moves the own sequence number by one |
| `RequestWalk.RaisedExactly` | quagga-0.99.24.1/babeld/message.c:1506-1518 | exactly which requests move it: at most 100 ahead, or exactly half the number space away |
| `RequestWalk.WalkBound` | quagga-0.99.24.1/babeld/message.c:1494-1561 | in any network, whatever else happens, a request with hop count h causes at most h - 1 forwards and moves at most one sequence number |
| `RequestWalk.StepPays` | quagga-0.99.24.1/babeld/message.c:1494-1561 | every forward uses up a hop, every move uses up a copy |
| `TokenBucket.RateBound` | quagga-0.99.24.1/babeld/message.c:510-530 | with a clock that never goes back, an interface created at t0 passes at most 200 + 40 (t - t0) packets by time t, and the bucket never exceeds 200 |
| `TokenBucket.WindowBound` | quagga-0.99.24.1/babeld/message.c:510-530 | in any window it passes at most 400 + 40 per second |
| `TokenBucket.WindowBoundReached` | quagga-0.99.24.1/babeld/message.c:510-530 | and 400 in one second do occur |
| `TokenBucket.Interface.CheckBucket` | quagga-0.99.24.1/babeld/message.c:510-530 | the fields updated in place |
| `TokenBucket.Interface.constructor` | quagga-0.99.24.1/babeld/babel_interface.c:1004-1008 | a new interface starts with a full bucket |
| `UpdateBuffer.RunReads` | quagga-0.99.24.1/babeld/message.c:813-908 | main result: for any sequence of updates, wildcard retractions, other messages and flushes, the packets parse to exactly the updates sent, with router id, prefix, length, sequence number, metric and next hop |
| `UpdateBuffer.DoReads` | quagga-0.99.24.1/babeld/message.c:813-908 | one command adds exactly its own update to what receivers read |
| `UpdateBuffer.FlushReads` | quagga-0.99.24.1/babeld/message.c:532-572 | a flush changes nothing of what receivers read |
| `UpdateBuffer.PacketRead` | quagga-0.99.24.1/babeld/message.c:194-258 | a packet is read as its body |
| `UpdateBuffer.SendUpdate` | quagga-0.99.24.1/babeld/message.c:813-908 | the buffer never exceeds its size |
| `UpdateBuffer.SendWildcard` | quagga-0.99.24.1/babeld/message.c:1178-1205 | nor here |
| `UpdateBuffer.Interface.FlushBuf` | quagga-0.99.24.1/babeld/message.c:532-572 | a packet is handed over and the sender forgets its compression state |
| `UpdateBuffer.Interface.EnsureSpace` | quagga-0.99.24.1/babeld/message.c:610-616 | a flush exactly when the space left is too small |
| `UpdateBuffer.Interface.StartMessage` | quagga-0.99.24.1/babeld/message.c:618-627 | header bytes, after a flush if need be |
| `UpdateBuffer.Interface.AccumulateBytes` | quagga-0.99.24.1/babeld/message.c:653-660 | bytes appended in place within the buffer |
| `UpdateBuffer.Interface.FindOmit` | quagga-0.99.24.1/babeld/message.c:860-864 | the loop that counts how much of the prefix is already known |
| `UpdateBuffer.Interface.WriteRouterId` | quagga-0.99.24.1/babeld/message.c:871-883 | a router id message when it cannot be derived from the prefix |
| `UpdateBuffer.Interface.WriteNextHop` | quagga-0.99.24.1/babeld/message.c:841-858 | a next hop message before the first IPv4 update of a packet |
| `UpdateBuffer.Interface.WriteUpdate` | quagga-0.99.24.1/babeld/message.c:885-907 | the update message itself |
| `UpdateBuffer.Interface.ReallySendUpdate` | quagga-0.99.24.1/babeld/message.c:813-908 | the whole function: no flush falls between choosing what to omit and the end of the message, and the buffer stays within its size |
| `UpdateBuffer.Interface.SendWildcardRetraction` | quagga-0.99.24.1/babeld/message.c:1178-1205 | the wildcard message |
| `UpdateCodec.ParseBody` | quagga-0.99.24.1/babeld/message.c:240-258 | the message loop of the parser, against a recursive decoder |
| `UpdateRoundTrip.UpdateRead` | quagga-0.99.24.1/babeld/message.c:344-445 | one update message, decoded against the state its writer assumed, gives back the update |
| `UpdateRoundTrip.PrefixV6` | quagga-0.99.24.1/babeld/message.c:73-131 | an IPv6 prefix is restored from the bytes sent and those remembered |
| `UpdateRoundTrip.PrefixV4` | quagga-0.99.24.1/babeld/message.c:73-131 | an IPv4 prefix is restored |
| `UpdateRoundTrip.DecodeAppend` | quagga-0.99.24.1/babeld/message.c:240-258 | messages already read do not matter for later ones except through the decoder state |
| `UpdateRoundTrip.AppendUpdate` | quagga-0.99.24.1/babeld/message.c:813-908 | writer and reader stay in step over an update |
| `UpdateRoundTrip.AppendWildcard` | quagga-0.99.24.1/babeld/message.c:1178-1205 | and over a wildcard retraction |
| `UpdateRoundTrip.AppendOther` | quagga-0.99.24.1/babeld/message.c:240-258 | and over any other message |

## Left out

- Sockets, timers, threads, kernel and zebra calls; calls into the kernel are taken to succeed.
- Allocation failure, the growth and shrinking of the slot and exported-route arrays (route.c:157-176), and the assertion that a source has less than 65535 routes.
- Routes, sources and exported routes are values in sequences owned by the table: pointers from routes to sources become keys, and aliasing of routes outside the table is not modelled. Unlinking and relinking a route in a chain, and shifting the slot array, are operations on sequences; in move_installed_route they are the very term of the specification.
- AsPathRoundTrip.RoundTripExact: of a path for which `CanSlip` holds, that fails on both counts and may come back all the same, as `SlipsCancel` shows, it says no more than that; there the numbers decide.
- LoopFreedom.LoopFree: covers runs inside `InScope` and `Anchored`; sources that have gone stale, and their expiry, are outside it.
- BabelOperations.RetractRouteKeeps: concerns one route; the walk of retract_neighbour_routes, which advances its index twice per round, and the walks of update_neighbour_metric, update_interface_metric and expire_routes are not modelled.
- flush_all_routes, which runs at shutdown only.
- Triggered updates, requests sent on loss of a route or on unfeasible updates, resending, and the table of recent requests.
- Channels and diversity: whether a route interferes with an interface is a parameter of `SendMode`; channel lists in updates are neither written nor read.
- UpdateBuffer.Interface.FlushBuf: every packet is handed over; packets dropped by the token bucket or a failing socket are not modelled.
- flushbuf first sends the updates queued on the interface; in `UpdateBuffer` these are commands of their own that precede the flush.
- Message bodies other than router id, next hop and update are skipped by the model of the parser; unicast buffers are left out.
- The 16-byte copy of an 8-byte router id (message.c:881): ids are 8 bytes.
- Segment lengths are unbounded: the 16-bit length of a segment, and the 16-bit sums while joining, do not wrap.
- aspath_prepend, confederation stripping, AS path hashing and regular expressions.
- BestPath.BestSelection: the sorted insertion into the candidate list is left out (its contents are modelled, not its order), and so is the reaping of removed paths; also the D-BGP protocols, which replace the comparison.
- DeterministicMed.DeterministicSelection: the multipath chains that are updated for each group are left out; the flags are taken to be clear at the start.
- First AS numbers of empty segments, which aspath_cmp_left would read past the end: taken not to match.
- Multipath.Update: the lazily allocated multipath record is part of the path object, and reference counts of paths are left out.
- The qsort of the C library is modelled by its result, a sorted listing.
- bgp_attr.c, bgp_fsm.c, bgp_damp.c, extended communities and all command, debug and dump code.
