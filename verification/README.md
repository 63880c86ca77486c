# Models of FOG: the packet engine's algorithms and the profile search

FOG is a Windows agent (`FOG.Agent`, C#) around a vendored packet engine (`FOG.Engine`, C).  This project models the
algorithms of the engine and the state machine of the agent in Dafny and proves what they promise.

| files | what they model |
|---|---|
| Quicksort, Dedup, Grouping, Ip2net, Ip2net6 | the explicit-stack sort of ip2net and the grouping of addresses into subnets |
| AvlTree, KavlHeap, KavlInsert, KavlErase, Kavl, Prefixes, IpSet | the intrusive AVL tree over cells in memory, and the set of IP prefixes kept in it |
| Checksum, ChecksumStamp | the 64-bit Internet checksum for every start address, and stamping it into segments |
| TcpStream, FillPattern, SplitPositions, TcpPlans, TcpShapes, TcpDesync, TcpPlay, Replay, Reassembly | splitting, disordering, faking, delaying and replaying TCP segments, against a receiver |
| Varint, QuicDefrag, QuicHello | collecting QUIC CRYPTO frames |
| Linked, UtHash, Conntrack | the intrusive hash table and the connection table it carries |
| TlsHello, TlsEdit, TlsSni | finding and replacing the server name of a ClientHello |
| TcpOptions, TcpHeader, TcpBuild, TcpBuild6, Dissect, IpFrag, IpFrag6 | building, dissecting and fragmenting packets |
| SessionRecovery, ProfileSearch, Supervisor | the agent's search for a working profile |
| Bits, SingleBits, Bytes, Layout, Options | bits, bytes, buffers laid out as rows of fields, an option type |

Code that changes things step by step is a method over arrays or a class; its contract ties it to a function or states the
result outright, and lemmas say what that function means.  `dafny verify dfyconfig.toml` checks everything.

## How the model reads the source

- A C pointer into a buffer is an index; an intrusive structure is a map from addresses to cells, and a new element comes
  with the address the allocator would return.  Allocation succeeds.
- Integers are unbounded except where their width matters: there the model reduces them, wraps them or bounds them.
  Arithmetic by large constants is written with helper functions that add or take off a block at a time, so that the
  prover need not divide.
- Random bytes, clocks, identifiers, start addresses of buffers, the outcome of each `rawsend` and of each probe are
  inputs, so that a statement about a run is a statement about all of them.
- The Windows build is modelled: the retry after EMSGSIZE and the NAT fix-up of new connections are compiled only elsewhere.
- Byte order is little endian.  `qsort` of the C library is stood in for by gnu_quicksort.
- Profile identifiers are compared without regard to case in the source, and as values here.
- A duplicate of the original packet counts as a fake: nothing relies on its arrival.  `_waitingForTunnel` is never true in
  the source and is left out.

## What turned out not to hold

Where a promise fails for a family of inputs, the model proves the exact condition under which it holds; the members named
here and in the table below state it.  The remaining points are observations made on the way.

- The last fold of the checksum drops a carry exactly for a first stage of 0x1FFFF; a buffer that shows it is
  Checksum.LostCarryExample.  Everything above the checksum carries this condition.  A UDP checksum that comes out as 0 is
  stored as 0, which RFC 768 reserves for "no checksum".
- FOOL_BADSUM leaves a valid segment when it turns one zero of one's complement into the other (TcpBuild.SpoiledVerifies).
- For short IPv4 prefixes size * mult exceeds 32 bits and the fill test asks for less than documented
  (Grouping.ThresholdExact, Grouping.ThresholdWraps).
- 128 different CRYPTO frames followed by a duplicate are refused, although the duplicate needs no room
  (QuicHello.FitsExactly).
- `ip_frag6` copies only the base header into the second fragment: with one extension header the pair reassembles only if
  the second buffer happens to hold the right length byte.  Since `ipfrag2` inserts such a header on demand, that mode can
  take a packet over and deliver nothing (TcpPlay.IpFrag2).
- `dup_replace` holds the original back by design; it is the only other way for a packet to be lost.
- A receiver for which the first copy of a byte wins would see the filler that multidisorder and fakeddisorder put under a
  later segment; the results are for receivers for which the last copy wins.
- `prepare_tcp_segment4/6` keep the length in 16 bits: beyond 65535 bytes the packet describes less than it holds
  (TcpBuild.LongPacketsAreCut).
- A packet that starts a connection entry over is not counted in the new entry's packet counters.
- A SYN,ACK that opens an entry for a flow that is its own reverse is recorded as reverse and found as forward.
- `b_cutoff` is never set (its assignment is commented out, FOG.Engine/upstream/nfq/desync.c:346-351), so a purge goes by
  timeouts alone.
- A search is declared exhausted with profiles left when the engine has exited by the second failed check, or when there
  are no probes; if no profile starts at all, no engine is left running.  DeferToActiveTunnelAsync contains a branch that
  stops a live engine, and it is never taken.

## Model

| member | source | states |
|---|---|---|
| Quicksort.GnuQuicksort | FOG.Engine/upstream/ip2net/qsort.c:89-250 | for every array and every total preorder the result is sorted and a permutation of the input |
| Quicksort.QuickPhase | FOG.Engine/upstream/ip2net/qsort.c:101-196 | the partition phase ends, and leaves a permutation in which elements more than MAX_THRESH slots apart are in order |
| Quicksort.CollapseWalls | FOG.Engine/upstream/ip2net/qsort.c:133-164 | both walls stop inside the range and end up crossed, with everything on the left at most everything on the right; slots outside the range are untouched |
| Quicksort.PendingStep | FOG.Engine/upstream/ip2net/qsort.c:166-195 | replacing a partitioned range by those of its halves that exceed the threshold keeps every pair that may still be out of order inside a pending range |
| Quicksort.NextRange | FOG.Engine/upstream/ip2net/qsort.c:171-194 | the threshold tests drop, keep or push the right halves; when both are kept, the one pushed is at least as wide as the one continued with |
| Quicksort.StackFits | FOG.Engine/upstream/ip2net/qsort.c:54-62 | pending ranges that obey the halving rule number at most 62 for any array size below 2^64, so a stack of 64 entries never overflows |
| Quicksort.OuterStep | FOG.Engine/upstream/ip2net/qsort.c:110-195 | one round keeps the pending ranges, the halving rule and the bound of 62, and shrinks the total span, so the loop ends |
| Quicksort.PlaceSentinel | FOG.Engine/upstream/ip2net/qsort.c:206-221 | the smallest of the first MAX_THRESH + 1 slots is the smallest element of all |
| Quicksort.InsertRun | FOG.Engine/upstream/ip2net/qsort.c:226-248 | the backward scan has no bound test, stops inside the array all the same, and the prefix grows by one and stays sorted |
| Dedup.Unique | FOG.Engine/upstream/ip2net/ip2net.c:56-66 | the prefix kept is the list with every element equal to its predecessor left out |
| Dedup.DistinctAscends | FOG.Engine/upstream/nfq/helpers.c:14-24 | on a sorted list no duplicate survives |
| Grouping.SearchStopped | FOG.Engine/upstream/ip2net/ip2net.c:377-402 | both early exits of the search are right: no longer or shorter prefix skipped by them could have been chosen |
| Grouping.ChoicesDisjoint | FOG.Engine/upstream/ip2net/ip2net.c:469-508 | no later block reaches back over an earlier address, and no later address lies in an earlier block |
| Grouping.FillsIsEligible | FOG.Engine/upstream/ip2net/ip2net.c:482-488 | when no 32-bit product wraps, the shortcut for addresses high in the block never skips a block filled to mult/div |
| Grouping.ThresholdExact | FOG.Engine/upstream/ip2net/ip2net.c:486-488 | the 32-bit threshold is floor(size * mult / div) if and only if size * mult < 2^32 |
| Grouping.ThresholdWraps | FOG.Engine/upstream/ip2net/ip2net.c:486-488 | a concrete prefix length for which it is not: with 3/4 and a /1 it is a third of the documented value |
| Ip2net.MaskSplitsAddress | FOG.Engine/upstream/ip2net/ip2net.c:50-54 | the masks cut an address into block start, block size and block end |
| Ip2net.ChooseIPv4 | FOG.Engine/upstream/ip2net/ip2net.c:476-500 | the search finds the smallest of the eligible blocks of maximal coverage, or that there is none |
| Ip2net.GroupIPv4 | FOG.Engine/upstream/ip2net/ip2net.c:466-508 | items ascend and are disjoint, every input address is in exactly one; unless a 32-bit product wraps every block holds at least floor(size * mult / div) of the addresses and no allowed block filled to mult/div covers more, nor as many in less space |
| Ip2net6.Cmp6IsNumeric | FOG.Engine/upstream/ip2net/ip2net.c:71-120 | comparing two byte-swapped halves is comparing the 128-bit numbers |
| Ip2net6.MaskedAddress | FOG.Engine/upstream/ip2net/ip2net.c:132-190 | AND with the byte mask is the start of the block, as a number |
| Ip2net6.GroupIPv6 | FOG.Engine/upstream/ip2net/ip2net.c:366-418 | as for IPv4; an item is a block exactly when the widest allowed one has enough addresses, and then the narrowest allowed one with the same addresses |
| AvlTree.FindCorrect | FOG.Engine/upstream/nfq/kavl.h:81-95 | a search succeeds exactly when some element compares equal, and its count is that element's position or the number of smaller ones |
| AvlTree.InsertCorrect | FOG.Engine/upstream/nfq/kavl.h:129-173 | inserting keeps balance factors, exact sizes and the order, and adds exactly the new element behind the smaller ones |
| AvlTree.RemoveCorrect | FOG.Engine/upstream/nfq/kavl.h:175-256 | erasing keeps them and takes out exactly the element found |
| AvlTree.HeightFits | FOG.Engine/upstream/nfq/kavl.h:69 | by the Fibonacci bound a tree whose size fits `unsigned` is at most 45 high |
| Kavl.Kavl.Find | FOG.Engine/upstream/nfq/kavl.h:81-95 | the loop over cells in memory returns the node and the count of the recursive search |
| Kavl.Kavl.KavlRotate1 | FOG.Engine/upstream/nfq/kavl.h:99-108 | the pointer writes turn the cells of a tree into the cells of the rotated tree, sizes included, and touch no others |
| Kavl.Kavl.KavlRotate2 | FOG.Engine/upstream/nfq/kavl.h:110-127 | the same for the double rotation, balance factors included |
| Kavl.Kavl.Descend | FOG.Engine/upstream/nfq/kavl.h:137-152 | the path to the free place is at most 45 long; below the pivot bp all balance factors are zero, and bq is its parent |
| Kavl.Kavl.Insert | FOG.Engine/upstream/nfq/kavl.h:129-173 | an equal node is returned and nothing changes; otherwise memory holds the tree that the recursive insertion gives, and cells outside it are as before |
| Kavl.Kavl.SearchDown | FOG.Engine/upstream/nfq/kavl.h:181-200 | path length plus the height below it stays within 45, which bounds the whole path of an erasure |
| Kavl.Kavl.MendLoop | FOG.Engine/upstream/nfq/kavl.h:233-253 | with path and fake node inside KAVL_MAX_DEPTH, the repair from the bottom up, early exits included, is the recursive repair |
| Kavl.Kavl.Erase | FOG.Engine/upstream/nfq/kavl.h:175-256 | exactly the node found is unlinked and returned, and memory holds the tree that the recursive deletion gives |
| Prefixes.CmpIsNumeric | FOG.Engine/upstream/nfq/pools.c:276-287 | the byte-wise comparison is the comparison of the first min(bitlen) bits as numbers |
| Prefixes.EqualIsNested | FOG.Engine/upstream/nfq/pools.c:276-287 | two prefixes compare equal if and only if one contains the other |
| Prefixes.BelowIsLeft | FOG.Engine/upstream/nfq/pools.c:276-287 | comparing below is lying entirely to the left |
| Prefixes.EqualIsNotTransitive | FOG.Engine/upstream/nfq/pools.c:276-287 | three prefixes that show the comparator is no total preorder |
| IpSet.StrictCuts | FOG.Engine/upstream/nfq/pools.c:276-288 | on pairwise disjoint members every prefix splits the order as a search needs |
| IpSet.KavlBitDelete | FOG.Engine/upstream/nfq/pools.c:297-303 | exactly the member that compares equal, if any, goes |
| IpSet.KavlBitAdd | FOG.Engine/upstream/nfq/pools.c:314-332 | the delete-and-retry loop ends; a covered prefix changes nothing, any other replaces exactly the members inside it |
| IpSet.KavlBitGet | FOG.Engine/upstream/nfq/pools.c:333-340 | a lookup finds something exactly when some member overlaps |
| IpSet.LookupIsScan | FOG.Engine/upstream/nfq/pools.c:333-356 | and that is so exactly when some prefix ever added overlaps |
| IpSet.IpsetAdd | FOG.Engine/upstream/nfq/pools.c:341-364 | a prefix that is too long is refused; otherwise the set answers for one item more |
| IpSet.IpsetCheck | FOG.Engine/upstream/nfq/pools.c:350-359 | a full address is found if and only if some subnet ever added contains it |
| IpSet.AppendIpset | FOG.Engine/upstream/nfq/ipset.c:8-123 | a whole list goes in, or loading stops at a prefix that is refused |
| Checksum.From64to16Exact | FOG.Engine/upstream/nfq/checksum.c:8-12 | the fold is the one's complement value, or one less exactly when its second stage drops a carry |
| Checksum.LosesCarryOnly | FOG.Engine/upstream/nfq/checksum.c:8-12 | below 2^36 a carry is dropped exactly for a first stage of 0x1FFFF |
| Checksum.CarryStep | FOG.Engine/upstream/nfq/checksum.c:60-68 | `w > result` catches every overflow, and adding the carry back never overflows |
| Checksum.AccumulateSum | FOG.Engine/upstream/nfq/checksum.c:37-90 | for every start address the value before the fold has the one's complement value of the sum of the 16-bit words, and no overflow goes unnoticed |
| Checksum.ByteOrderIndependent | FOG.Engine/upstream/nfq/checksum.c:17-94 | the sum of words in native order is the network-order sum with its bytes swapped; section 2 of RFC 1071 |
| Checksum.CsumIsRfc1071 | FOG.Engine/upstream/nfq/checksum.c:17-94 | for every buffer, length and start address the result is the RFC 1071 sum if and only if the final fold drops no carry |
| Checksum.LostCarryExample | FOG.Engine/upstream/nfq/checksum.c:8-12 | nine bytes with sum 1 that are reported as summing to 0 |
| Checksum.DoCsum | FOG.Engine/upstream/nfq/checksum.c:17-94 | the loops compute that result |
| ChecksumStamp.Stamp4Verifies | FOG.Engine/upstream/nfq/checksum.c:101-129 | a stamped IPv4 segment re-sums to all ones with its pseudo header if and only if neither fold drops a carry |
| ChecksumStamp.Stamp6Verifies | FOG.Engine/upstream/nfq/checksum.c:116-134 | the same for IPv6 |
| ChecksumStamp.FixChecksum4 | FOG.Engine/upstream/nfq/checksum.c:125-129 | the field and nothing else is written, with the value those lemmas speak of |
| ChecksumStamp.FixChecksum6 | FOG.Engine/upstream/nfq/checksum.c:130-134 | the same for IPv6 |
| ChecksumStamp.Ip4FixChecksum | FOG.Engine/upstream/nfq/checksum.c:106-114 | the header re-sums to all ones if and only if the fold drops no carry |
| FillPattern.FillPattern | FOG.Engine/upstream/nfq/helpers.c:341-360 | byte k of the buffer is byte (offset + k) mod patsize of the pattern, and nothing beyond is written |
| SplitPositions.ResolveMultiPos | FOG.Engine/upstream/nfq/protocol.c:138-149 | the positions found, each once, in ascending order |
| SplitPositions.NormalizedSplits | FOG.Engine/upstream/nfq/desync.c:731-734 | the positions that remain are ascending and strictly inside the packet |
| SplitPositions.NormalizePositions | FOG.Engine/upstream/nfq/desync.c:1839-1847 | the loop keeps exactly those, in place |
| TcpPlans.MultiSplitRebuilds | FOG.Engine/upstream/nfq/desync.c:2252-2328 | each byte of the payload is offered exactly once, the filler lies before the stream, and a receiver for which the last copy wins has the payload |
| TcpPlans.MultiDisorderRebuilds | FOG.Engine/upstream/nfq/desync.c:2330-2393 | the same, except that the filler precedes the real bytes that overwrite it |
| TcpPlans.FakedDisorderRebuilds | FOG.Engine/upstream/nfq/desync.c:2395-2528 | the same with fakes in between |
| TcpPlans.FakedSplitRebuilds | FOG.Engine/upstream/nfq/desync.c:2530-2675 | the same with fakes in between |
| TcpPlans.HostFakeSplitRebuilds | FOG.Engine/upstream/nfq/desync.c:2072-2250 | the same in both orderings, with the host name whole or cut |
| TcpDesync.MultiSplit | FOG.Engine/upstream/nfq/desync.c:2252-2328 | the packet is taken over if and only if every segment fits the buffer and every send succeeds, and then exactly the plan is on the wire; otherwise what was sent stays inside the packet |
| TcpDesync.MultiDisorder | FOG.Engine/upstream/nfq/desync.c:2330-2393 | the same |
| TcpDesync.FakedDisorder | FOG.Engine/upstream/nfq/desync.c:2395-2528 | the same, and on every exit each fake is cut from the pattern buffer at its own offset |
| TcpDesync.FakedSplit | FOG.Engine/upstream/nfq/desync.c:2530-2675 | the same |
| TcpDesync.HostFakeSplit | FOG.Engine/upstream/nfq/desync.c:2072-2250 | the same as multisplit |
| TcpPlans.CutFollowsPattern | FOG.Engine/upstream/nfq/desync.c:2544 | a fake cut from the buffer filled at the packet's offset follows the endless pattern of the stream |
| TcpPlay.IpFrag2 | FOG.Engine/upstream/nfq/desync.c:2677-2722 | taken over if and only if the packet can be cut and both sends succeed; the receiver gets the segment if the fragments fit together |
| TcpPlay.TcpOrigSend | FOG.Engine/upstream/nfq/desync.c:1009-1088 | when it reports that nothing is left to send, and dup_replace is off, the original is the last thing on the wire |
| TcpShapes.MultiSplitIsInOrder | FOG.Engine/upstream/nfq/desync.c:2252-2328 | multisplit sends one real segment per part, numbers ascending; without overlap they start at 0 and at the cuts; an overlap is in front of the first alone |
| TcpShapes.MultiDisorderIsInReverse | FOG.Engine/upstream/nfq/desync.c:2330-2393 | multidisorder sends one real segment per part, numbers strictly descending; without overlap they start at 0 and at the cuts; an overlap is in front of the second part alone |
| TcpShapes.FakedDisorderIsSecondFirst | FOG.Engine/upstream/nfq/desync.c:2395-2528 | the real second part goes out before the real first part, each with the fakes of it that the ordering asks for before and after; without a split position the whole packet with its fakes |
| TcpShapes.FakedSplitIsFirstFirst | FOG.Engine/upstream/nfq/desync.c:2530-2676 | the real first part goes out before the real second part, with the fakes that the ordering asks for |
| TcpShapes.HostFakeSplitIsHostFaked | FOG.Engine/upstream/nfq/desync.c:2072-2250 | after what precedes the host and its fakes come the rest of the packet and the real host, or the real host, its fakes again and the rest, as the ordering says |
| TcpPlay.SendFakeList | FOG.Engine/upstream/nfq/desync.c:1961-2010 | each fake of the list goes out `repeats` times, at the number of the packet or, with tcp_mod.seq, behind all the fakes before it; it gives up only when one does not fit or a send fails |
| TcpPlay.SecondStage | FOG.Engine/upstream/nfq/desync.c:2070-2722 | the packet is left alone if and only if the mode has no position in it, and taken over if and only if it has, all of it fits and every send succeeds; then the segments have the shape of the mode in use |
| TcpPlay.Play | FOG.Engine/upstream/nfq/desync.c:1952-2745 | whatever the profile and whichever sends fail, the receiver rebuilds exactly the payload, unless dup_replace holds the original back or it went out as fragments that do not fit together; when the mode has a position, all fits and all sends succeed, the wire shows the fakes of the first stage and then segments shaped as the mode says; with nothing to split, the fakes and the packet itself |
| Replay.MarksAre | FOG.Engine/upstream/nfq/desync.c:1824-1847 | an offset is a segment start exactly when a packet begins there or a resolved position lies there, strictly inside a packet |
| Replay.ReplayIsParts | FOG.Engine/upstream/nfq/desync.c:3493-3519 | replaying a queue under multisplit is multisplit of the whole message at those starts, each used once and in ascending order |
| Replay.ReplayQueue | FOG.Engine/upstream/nfq/desync.c:3493-3519 | if the final sends succeed the receiver rebuilds the whole message; under multisplit the log is the segments above; every round's fakes follow the pattern |
| Replay.ReplayedFakesFollowStream | FOG.Engine/upstream/nfq/desync.c:2544 | each fake byte that fakedsplit or fakeddisorder logs for any packet of the queue, at stream offset x, is pattern[x mod patsize] |
| Replay.HeldInSequence | FOG.Engine/upstream/nfq/desync.c:1581-1599 | the queue that reassembly keeps is what replay needs |
| Reassembly.Track.ReasmFeed | FOG.Engine/upstream/nfq/conntrack.c:375-387 | out of sequence nothing changes; otherwise as much as there is room for is appended and the expected number moves on by that |
| Reassembly.Track.FeedSession | FOG.Engine/upstream/nfq/desync.c:522-540 | in sequence the session goes on; out of sequence it ends and the queue is flushed, each packet once |
| Reassembly.Track.StepTcp | FOG.Engine/upstream/nfq/desync.c:1505-1601 | a packet is held back if and only if the interval is reached, a TLS ClientHello that is no HTTP request is seen, and it goes on with what is queued or begins an incomplete record of at most 16384 bytes that may start a session; held, it completes the record and the whole queue is replayed, or it waits with the queue, or alone with the old queue flushed; not held, the queue is flushed; each packet leaves the queue once |
| Reassembly.Track.StepUdp | FOG.Engine/upstream/nfq/desync.c:2905-3052 | a QUIC packet is held back if and only if there is room and the frames seen so far do not cover the message, or cover a ClientHello in part, or whatever they cover while packets are queued; a complete ClientHello replays the queue, anything else that is held waits; not held, the queue is flushed |
| Reassembly.Track.Destroy | FOG.Engine/upstream/nfq/conntrack.c:34-39 | what is still queued leaves by destruction |
| Varint.EncodeRoundTrip | FOG.Engine/upstream/nfq/protocol.c:572-597 | section 16 of RFC 9000: a value encoded in any of its widths is read back, anywhere in a buffer |
| QuicDefrag.NextFrame | FOG.Engine/upstream/nfq/protocol.c:876-890 | a frame that is refused makes the whole packet one that cannot be taken in; one that is not fits the buffer and leaves the rest to be read |
| QuicDefrag.AddFrame | FOG.Engine/upstream/nfq/protocol.c:892-908 | after a frame the buffer holds, up to the highest end, what the frames so far say and zeros elsewhere |
| QuicDefrag.MergeRanges | FOG.Engine/upstream/nfq/protocol.c:922-933 | one range is left exactly when no byte is missing between the first offset and the highest end |
| QuicDefrag.QUICDefragCrypto | FOG.Engine/upstream/nfq/protocol.c:856-951 | accepted exactly when there is a CRYPTO frame and all frames are understood and fit; full exactly when every byte below the highest end is covered; uncovered bytes are zero |
| QuicHello.HeaderAccepted | FOG.Engine/upstream/nfq/protocol.c:598-612 | the header written in front is read back by IsQUICCryptoHello |
| QuicHello.CutAmountsTo | FOG.Engine/upstream/nfq/protocol.c:856-951 | frames that carry a message, in any order, with overlaps, duplicates, PADDING and PING, parse to a full cover of it |
| QuicHello.RoundTrip | FOG.Engine/upstream/nfq/protocol.c:856-951 | so the message comes back whole and is taken for a ClientHello if it is one |
| QuicHello.FitsExactly | FOG.Engine/upstream/nfq/protocol.c:881 | frames are refused for their number if and only if 128 different ones come before the last frame |
| QuicHello.LateDuplicateRefused | FOG.Engine/upstream/nfq/protocol.c:881 | 128 different frames and a repetition of one of them are refused |
| UtHash.AndIsModulo | FOG.Engine/upstream/nfq/uthash.h:431-434 | masking the hash is taking it modulo the number of buckets |
| UtHash.HashTable.Find | FOG.Engine/upstream/nfq/uthash.h:744-763 | an element is found exactly when the key is in the table |
| UtHash.HashTable.Add | FOG.Engine/upstream/nfq/uthash.h:397-416 | the list grows at its end, and buckets, counts and list agree afterwards, expansion included |
| UtHash.HashTable.ExpandBuckets | FOG.Engine/upstream/nfq/uthash.h:832-882 | doubling the buckets moves every element to its bucket, once, with right counts |
| UtHash.HashTable.Delete | FOG.Engine/upstream/nfq/uthash.h:451-478 | exactly the element goes, from list and bucket; with the last one the table goes |
| UtHash.HashTable.Sweep | FOG.Engine/upstream/nfq/uthash.h:1059-1061 | iterating with deletion of the current element visits every element once, in order, and leaves those not deleted |
| Conntrack.Pool.DoubleSearch | FOG.Engine/upstream/nfq/conntrack.c:202-225 | finds the entry whose key is the packet's or its swap, and reports neither only when there is none |
| Conntrack.TraceGrows | FOG.Engine/upstream/nfq/conntrack.c:122-200 | feeding a datagram keeps positions, last positions and counters equal to the sums over the trace modulo their widths |
| Conntrack.TcpTraceGrows | FOG.Engine/upstream/nfq/conntrack.c:122-200 | feeding a segment keeps what a TCP track says true of the segments fed: positions are those of the last one and its direction; the state follows from the segments since the connection began; counters are sums since then; the initial numbers are those of SYN, SYN,ACK or first acknowledgment |
| Conntrack.Pool.FeedEntry | FOG.Engine/upstream/nfq/conntrack.c:122-200 | both hold of the entry in the pool, and no other entry changes |
| Conntrack.Pool.Feed | FOG.Engine/upstream/nfq/conntrack.c:231-266 | in every reachable pool no two entries are the same flow up to direction, and every track tells its own history; a new entry appears exactly for a packet that opens one |
| Conntrack.FindAgain | FOG.Engine/upstream/nfq/conntrack.c:202-266 | a packet just fed is found at the same entry, and in the same direction unless its key is its own swap |
| Conntrack.Pool.DropFlow | FOG.Engine/upstream/nfq/conntrack.c:272-285 | afterwards the flow has no entry; all other flows keep theirs |
| Conntrack.ExpiredIsOverdue | FOG.Engine/upstream/nfq/conntrack.c:296-309 | what a purge removes, told by the history: TCP entries silent for the closing, handshake or established timeout as their segments say, UDP ones for theirs |
| Conntrack.Pool.Purge | FOG.Engine/upstream/nfq/conntrack.c:291-313 | before the interval nothing changes, after it exactly the expired entries are gone |
| TlsHello.TLSFindExtInHandshake | FOG.Engine/upstream/nfq/protocol.c:426-478 | the walk returns the first extension of the kind or fails as the specification of the walk does |
| TlsHello.ParserFindsExtensions | FOG.Engine/upstream/nfq/protocol.c:480-490 | on a record laid out as section 4.1.2 of RFC 8446 says, the parser finds exactly the first extension of each kind, with its bytes |
| TlsEdit.ReplaceSni | FOG.Engine/upstream/nfq/nfqws.c:1402-1457 | fails with nothing written exactly when the name is not found or does not fit; otherwise six length fields are shifted, the tail moved, the name written |
| TlsSni.EditRenames | FOG.Engine/upstream/nfq/nfqws.c:1415-1457 | the edited buffer is the hello with the new name in place, with record, handshake, extensions, extension, list and name lengths consistent and the same bytes behind it |
| TlsSni.ParsesRenamed | FOG.Engine/upstream/nfq/protocol.c:480-501 | so the parser returns the new name and finds every other extension with unchanged bytes |
| TcpOptions.OptionsReadBack | FOG.Engine/upstream/nfq/darkmagic.c:56-111 | MSS, SACK, signature, timestamps and scale are found exactly as written, and none that was not |
| TcpHeader.OptLenIsWritten | FOG.Engine/upstream/nfq/darkmagic.c:189-199 | tcpopt_len is the number of bytes written, at most 40, so th_off is at most 15 |
| TcpHeader.FillTcpHdr | FOG.Engine/upstream/nfq/darkmagic.c:113-187 | the header bytes and nothing else are written, and read as the arguments: ports, window and options those asked for; sequence and acknowledgment number moved exactly under badseq, TSval exactly under ts; of the flags ACK alone dropped, exactly under datanoack with data and without SYN or RST |
| TcpHeader.HeaderReadsBack | FOG.Engine/upstream/nfq/darkmagic.c:113-187 | ports, sequence numbers, flags, window, data offset and every option read back from any header written |
| TcpHeader.ArgumentsReadBack | FOG.Engine/upstream/nfq/darkmagic.c:113-187 | a header made of the arguments says, to the functions that read it, what the arguments and the fooling ask for |
| TcpHeader.TwelveFlagsAreKept | FOG.Engine/upstream/nfq/darkmagic.c:685-699 | of the sixteen flag bits exactly the lower twelve survive |
| TcpBuild.PrepareTcpSegment4 | FOG.Engine/upstream/nfq/darkmagic.c:233-271 | refused with nothing written exactly when it does not fit the buffer; otherwise dissection finds the headers, they read as the arguments (ttl, tos, DF, id and addresses included), and the payload is behind them |
| TcpBuild.Dissects4 | FOG.Engine/upstream/nfq/darkmagic.c:972-1016 | dissecting such a packet gives back header, options, payload and addresses, whatever the fooling |
| TcpBuild.Sum4Verifies | FOG.Engine/upstream/nfq/darkmagic.c:266 | without FOOL_BADSUM the segment verifies if and only if no fold drops a carry |
| TcpBuild.SpoiledVerifies | FOG.Engine/upstream/nfq/darkmagic.c:267 | with it the segment still verifies if and only if the checksum goes from one zero of one's complement to the other |
| TcpBuild.LongPacketsAreCut | FOG.Engine/upstream/nfq/darkmagic.c:253-256 | the 16-bit length describes the packet if and only if its size is at most 65535 |
| TcpBuild6.WalkOverChain | FOG.Engine/upstream/nfq/darkmagic.c:923-970 | the walk steps over any chain of such headers to the TCP header |
| TcpBuild6.PrepareTcpSegment6 | FOG.Engine/upstream/nfq/darkmagic.c:273-358 | as for IPv4, with any combination of hop-by-hop, second hop-by-hop, destination and fragment header, each naming the next, which the dissection walks over |
| TcpBuild6.Dissects6 | FOG.Engine/upstream/nfq/darkmagic.c:972-1016 | dissecting it gives back header, options and payload for every combination |
| Dissect.UdpIsFound | FOG.Engine/upstream/nfq/darkmagic.c:906-909 | a UDP header is found if and only if there is room for it and for the length it claims |
| Dissect.ProtoSkipIpv6 | FOG.Engine/upstream/nfq/darkmagic.c:923-970 | the loop is the walk over the chain of headers |
| IpFrag.AssemblyIsUnique | FOG.Engine/upstream/nfq/darkmagic.c:561-592 | section 3.2 of RFC 791: fragments determine the data they make up |
| IpFrag.IpFrag4 | FOG.Engine/upstream/nfq/darkmagic.c:561-592 | on a well-formed packet the two outputs reassemble to exactly its data, with its header fields and verifying checksums |
| IpFrag6.IpFrag6 | FOG.Engine/upstream/nfq/darkmagic.c:593-645 | section 4.5 of RFC 8200: without extension headers the two outputs always reassemble; with one, if and only if byte 41 of the second buffer already held that header's length |
| IpFrag6.OneHeaderPair | FOG.Engine/upstream/nfq/darkmagic.c:633-641 | the reason: of the headers before the second Fragment header only the base header is copied |
| IpFrag6.InsertedHasOneHeader | FOG.Engine/upstream/nfq/darkmagic.c:542-560 | packets with an inserted options header are of that kind |
| SessionRecovery.Policy.Observe | FOG.Agent/SessionRecoveryPolicy.cs:9-30 | a recovery is asked for exactly when it is the third failure in a row or a later one, 60 s after the first and 5 minutes after the last recovery |
| SessionRecovery.RecoveriesApart | FOG.Agent/SessionRecoveryPolicy.cs:21-26 | over any run, recoveries are at least 5 minutes apart, whatever the clock does in between |
| SessionRecovery.RecoveryIsEarned | FOG.Agent/SessionRecoveryPolicy.cs:18-24 | each is preceded by at least three failures spanning 60 s, with no success or recovery among them |
| ProfileSearch.ScoreCountsSuccesses | FOG.Agent/ProfileSearch.cs:26-35 | with one probe of each name, a score is the sum of the points of the six that succeeded, whatever their order |
| ProfileSearch.BestIsMaximal | FOG.Agent/ProfileSearch.cs:22-24 | the choice has the highest score on record, and is the current profile whenever that has it too |
| ProfileSearch.OrderIsPermutation | FOG.Agent/ProfileRotation.cs:10-31 | the order offers every profile as often as the catalog has it, the preferred one first |
| ProfileSearch.FailedComesLast | FOG.Agent/ProfileRotation.cs:33-45 | after MovePast the profile that failed is offered last |
| Supervisor.Supervisor.TryProfile | FOG.Agent/EngineSupervisor.cs:533-576 | a round launches only a profile that this cycle has not launched |
| Supervisor.Supervisor.StartBestInternal | FOG.Agent/EngineSupervisor.cs:502-588 | the record of what the search was told and started: it starts untried profiles in the order of the rotation, the next only once the last has exited, none after a reason not to; on hold only under a pause or with an engine still running, adopted only for a lease of the catalog, stopped only without the wish, direct only with a healthy tunnel; a profile being tried is the last started and still runs |
| Supervisor.WantedSearchLaunches | FOG.Agent/EngineSupervisor.cs:502-588 | so a wanted search that is not paused, finds no lease and no healthy tunnel launches the first untried profile, and ends with an engine being tried or after every untried profile has exited |
| Supervisor.Supervisor.KeepBest | FOG.Agent/EngineSupervisor.cs:436-449 | a profile with the highest score is kept; the engine is live afterwards if and only if that profile was launched again or it was live before |
| Supervisor.Supervisor.QualificationFailed | FOG.Agent/EngineSupervisor.cs:418-449 | the search is declared exhausted if and only if every profile has been attempted, or the engine has exited, or no probe failed |
| Supervisor.Supervisor.ApplyEngineProbeResults | FOG.Agent/EngineSupervisor.cs:371-468 | with the engine live and probes at hand, exhausted means that the whole catalog was attempted |
| Supervisor.EarlyExhaustion | FOG.Agent/TransportPolicy.cs:45-57 | a catalog of two with one attempted and an exited engine: the search ends |
| Supervisor.CycleIsBounded | FOG.Agent/EngineSupervisor.cs:494-576 | a cycle launches each profile at most once while it searches |
| Supervisor.ClosedCyclesLaunchOnce | FOG.Agent/EngineSupervisor.cs:481-487 | so did every cycle before it; at most one more launch, of the best profile, closed it |
| Supervisor.Supervisor.RecoverIfNeeded | FOG.Agent/EngineSupervisor.cs:272-346 | keeps the invariant: direct mode and a live engine never coexist, attempted profiles are of the catalog and cover what was launched |
| Supervisor.Supervisor.ReconcileCompatibility | FOG.Agent/EngineSupervisor.cs:192-270 | keeps it |
| Supervisor.Supervisor.RefreshHealth | FOG.Agent/EngineSupervisor.cs:150-190 | keeps it |
| Supervisor.Supervisor.StartBest | FOG.Agent/EngineSupervisor.cs:61-109 | keeps it |
| Supervisor.Supervisor.Stop | FOG.Agent/EngineSupervisor.cs:111-131 | keeps it, and no engine and no direct mode is left |

## Left out

- TcpPlay.Play: leaves out the numbering of ip_id and the rebuilding of duplicates byte for byte, and takes as inputs which header sizes the fooling gives and whether `ip_frag` fits and its outputs assemble; IpFrag and IpFrag6 say when they do.
- TcpDesync.MultiSplit: segments carry sequence number and bytes; flags, ttl and fooling of a segment decide only whether it counts as real or fake.
- Replay.ReplayQueue: asks that every packet fits the 16-bit length fields and that the message is shorter than half the sequence space, as the reassembly limit sees to.
- Reassembly.Track.StepTcp: which packets may start a session is an input, as retransmission counting and host lists are not modelled.
- Reassembly.Track.StepUdp: what the frames collected so far amount to is an input; QuicDefrag and QuicHello say it.
- TcpBuild.PrepareTcpSegment4: asks for a packet of at most 65535 bytes; LongPacketsAreCut says what happens beyond.
- TcpBuild6.PrepareTcpSegment6: the same.
- IpFrag.IpFrag4: the buffers hold at least 20 bytes, as the caller's do; for packets whose header field says less than 20 bytes only which are taken and the sizes are stated.
- IpFrag6.IpFrag6: for two or more extension headers only the bytes written are stated, not whether they reassemble.
- TlsSni.ParsesRenamed: for ClientHellos whose lengths fit their fields before and after the edit; others are edited too, with lengths that wrap.
- TlsEdit.ReplaceSni: the random name, padding encapsulation and session id modes of the same function are left out.
- Ip2net.GroupIPv4: asks for prefix lengths from 1 to 31 and a percentage below one, as the command line does.
- Kavl.Kavl.Erase: kavl_erase_first, iterators and kavl_free are left out.
- UtHash.HashTable.Add: the hash function is any function; sorting, selecting, Bloom filters and out-of-memory rollback are left out.
- Conntrack.Pool.Feed: host names, retransmission counters and reassembly state of an entry are left out.
- Supervisor.Supervisor.RecoverIfNeeded: for steps that end without an exception; cancellation, integrity checks, the preferred-profile store and the text of snapshots are left out.
- SYN data, window size and scale rewriting, HTTP header tampering, UDP packet building and the UDP desync modes other than reassembly.
- QUIC key derivation and decryption: the model starts from the decrypted frames.
- Host name pools, filters, autottl, IP cache, command lines, file loading, logging.
- Parsing input lines and printing output lines of ip2net; options and files of mdig.
- Drivers, pipes, leases, probes and processes: only their outcome is modelled.
